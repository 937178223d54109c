/**
 The effective client address of a request (router.go, `effectiveClientIP` and `normalizeIPPrefix`; proxy.go,
 `isTrustedProxy`).

 Addresses are bit strings read as numbers.  Parsing is outside: the peer and the comma-separated entries of
 `X-Forwarded-For` arrive as parse results.
 */
module ClientAddress {
  import opened Prelude
  import opened Arithmetic

  const TWO_TO_THE_32: nat := 0x1_0000_0000
  const TWO_TO_THE_128: nat := 0x1_0000_0000_0000_0000_0000_0000_0000_0000
  const MAPPED: nat := 0xFFFF

  datatype Address = V4(bits: nat) | V6(bits: nat) {
    predicate Valid() { if V4? then bits < TWO_TO_THE_32 else bits < TWO_TO_THE_128 }
    function Width(): nat { if V4? then 32 else 128 }
  }

  datatype Prefix = Prefix(address: Address, length: nat) {
    predicate Valid() { address.Valid() && length <= address.Width() }
  }

  /** A forwarded entry after trimming: what the address parser makes of it. */
  datatype Entry = Literal(address: Address, zoned: bool) | Malformed

  function Pow2(n: nat): (p: nat)
    ensures p > 0
  {
    if n == 0 then 1 else 2 * Pow2(n - 1)
  }

  predicate Is4In6(a: Address) { a.V6? && a.bits / TWO_TO_THE_32 == MAPPED }

  function Unmap(a: Address): Address {
    if Is4In6(a) then V4(a.bits % TWO_TO_THE_32) else a
  }

  /** Membership: the same family, and agreement on the leading `length` bits.  A mapped address is not an IPv4 one. */
  predicate Contains(p: Prefix, a: Address) {
    && p.Valid() && a.Width() == p.address.Width()
    && var block := Pow2(a.Width() - p.length); a.bits / block == p.address.bits / block
  }

  /** The number with everything below the block size cleared. */
  function Floor(bits: nat, block: nat): nat
    requires block > 0
  {
    MulSign(block, bits / block);
    block * (bits / block)
  }

  function Masked(p: Prefix): Prefix
    requires p.Valid()
  {
    var bits := Floor(p.address.bits, Pow2(p.address.Width() - p.length));
    Prefix(if p.address.V4? then V4(bits) else V6(bits), p.length)
  }

  function NormalizeIPPrefix(p: Prefix): Prefix
    requires p.Valid()
  {
    if Is4In6(p.address) && p.length >= 96 then Masked(Prefix(Unmap(p.address), p.length - 96)) else Masked(p)
  }

  // ----- What addresses and prefixes mean

  /** The mapped addresses are ::ffff:0:0 to ::ffff:ffff:ffff, and only they change. */
  lemma UnmapMeans(a: Address)
    requires a.Valid()
    ensures Unmap(a) == if a.V6? && 0xFFFF_0000_0000 <= a.bits <= 0xFFFF_FFFF_FFFF then V4(a.bits - 0xFFFF_0000_0000) else a
  {
    var q, low := a.bits / TWO_TO_THE_32, a.bits % TWO_TO_THE_32;
    assert a.bits == TWO_TO_THE_32 * q + low;
  }

  /** A prefix of length 0 holds its whole family, one of full length only its own address. */
  lemma ContainsExtremes(p: Prefix, a: Address)
    requires p.address.Valid() && a.Valid()
    ensures p.length == 0 ==> (Contains(p, a) <==> a.V4? == p.address.V4?)
    ensures p.length == p.address.Width() ==> (Contains(p, a) <==> a == p.address)
  {
    if p.length == 0 && a.Width() == p.address.Width() {
      WholeFamily(a.Width());
      DivUnique(a.bits, Pow2(a.Width()), 0, a.bits);
      DivUnique(p.address.bits, Pow2(a.Width()), 0, p.address.bits);
    }
    if p.length == p.address.Width() {
      assert Pow2(0) == 1;
    }
  }

  /** A prefix holds the addresses of its family in the aligned block of `2^(width - length)` that its address lies in. */
  lemma ContainsIsARange(p: Prefix, a: Address, q: nat)
    requires p.Valid() && a.Valid()
    requires var block := Pow2(p.address.Width() - p.length);
             q * block <= p.address.bits < q * block + block
    ensures var block := Pow2(p.address.Width() - p.length);
            Contains(p, a) <==> a.V4? == p.address.V4? && q * block <= a.bits < q * block + block
  {
    var block := Pow2(p.address.Width() - p.length);
    BlockOf(p.address.bits, block, q);
    BlockOf(a.bits, block, q);
  }

  lemma BlockOf(x: nat, block: nat, q: nat)
    requires block > 0
    ensures x / block == q <==> q * block <= x < q * block + block
  {
    if q * block <= x < q * block + block {
      Commutes(q, block);
      DivUnique(x, block, q, x - q * block);
    }
    DivRemains(x, block);
  }

  lemma Commutes(a: int, b: int)
    ensures a * b == b * a
  {
  }

  lemma WholeFamily(width: nat)
    ensures width == 32 ==> Pow2(width) == TWO_TO_THE_32
    ensures width == 128 ==> Pow2(width) == TWO_TO_THE_128
  {
    Pow2Of32();
    Pow2Sum(32, 32);
    Pow2Sum(64, 64);
  }

  // ----- Normalising a prefix

  lemma {:induction false} Pow2Sum(a: nat, b: nat)
    ensures Pow2(a + b) == Pow2(a) * Pow2(b)
  {
    if a > 0 {
      Pow2Sum(a - 1, b);
      DoubleProduct(Pow2(a - 1), Pow2(b));
      assert (a - 1) + b + 1 == a + b;
    }
  }

  lemma DoubleProduct(x: int, y: int)
    ensures 2 * (x * y) == (2 * x) * y
  {
  }

  lemma Pow2Of32()
    ensures Pow2(32) == TWO_TO_THE_32
  {
    assert Pow2(8) == 256;
    Pow2Sum(8, 8);
    Pow2Sum(16, 16);
  }

  lemma DivShift(x: int, k: int, block: int)
    requires block > 0
    ensures (k * block + x) / block == k + x / block
  {
    MulDistributes(block, k, x / block);
    DivUnique(k * block + x, block, k + x / block, x % block);
  }

  lemma ThreeFactors(a: int, b: int, c: int)
    ensures a * (b * c) == (a * b) * c
  {
  }

  lemma BlockQuotient(bits: nat, high: nat, low: nat, m: nat, block: nat, whole: nat)
    requires block > 0 && whole == m * block && low < whole && bits == high * whole + low
    ensures bits / block == high * m + low / block
    ensures 0 <= low / block < m
  {
    ThreeFactors(high, m, block);
    DivShift(low, high * m, block);
    QuotientBelow(low, m, block);
  }

  /** A block of at most 2^32 addresses lies within one value of the high 96 bits. */
  lemma HighBits(bits: nat, s: nat, block: nat, m: nat)
    requires s <= 32 && block == Pow2(s) && m == Pow2(32 - s)
    ensures bits / block == (bits / TWO_TO_THE_32) * m + (bits % TWO_TO_THE_32) / block
    ensures 0 <= (bits % TWO_TO_THE_32) / block < m
  {
    Whole(s, block, m);
    DivRemains(bits, TWO_TO_THE_32);
    BlockQuotient(bits, bits / TWO_TO_THE_32, bits % TWO_TO_THE_32, m, block, TWO_TO_THE_32);
  }

  lemma Whole(s: nat, block: nat, m: nat)
    requires s <= 32 && block == Pow2(s) && m == Pow2(32 - s)
    ensures TWO_TO_THE_32 == m * block
  {
    Pow2Of32();
    Pow2Sum(32 - s, s);
  }

  lemma DivRemains(x: nat, n: nat)
    requires n > 0
    ensures x / n >= 0 && (x / n) * n + x % n == x && x % n < n
  {
  }

  lemma QuotientBelow(x: nat, q: nat, block: nat)
    requires block > 0 && x < q * block
    ensures 0 <= x / block < q
  {
    if x / block >= q {
      MulDistributes(block, x / block, q);
      MulSign(block, x / block - q);
    }
  }

  lemma FloorIs(bits: nat, block: nat)
    requires block > 0
    ensures Floor(bits, block) <= bits && Floor(bits, block) / block == bits / block
  {
    DivUnique(Floor(bits, block), block, bits / block, 0);
  }

  lemma MaskedContains(p: Prefix, a: Address)
    requires p.Valid()
    ensures Contains(Masked(p), a) <==> Contains(p, a)
  {
    var block := Pow2(p.address.Width() - p.length);
    FloorIs(p.address.bits, block);
  }

  /** Two-part numbers are equal exactly when their parts are. */
  lemma SameParts(m: int, q1: int, h1: int, l1: int, q2: int, h2: int, l2: int)
    requires q1 == h1 * m + l1 && q2 == h2 * m + l2 && 0 <= l1 < m && 0 <= l2 < m
    ensures q1 == q2 <==> h1 == h2 && l1 == l2
  {
    if q1 == q2 {
      DivUnique(q1, m, h1, l1);
      DivUnique(q2, m, h2, l2);
    }
  }

  /** Membership in a block of at most 2^32 addresses, part by part. */
  lemma SameBlock(x: nat, y: nat, s: nat)
    requires s <= 32
    ensures x / Pow2(s) == y / Pow2(s) <==>
            && x / TWO_TO_THE_32 == y / TWO_TO_THE_32
            && (x % TWO_TO_THE_32) / Pow2(s) == (y % TWO_TO_THE_32) / Pow2(s)
  {
    var block, m := Pow2(s), Pow2(32 - s);
    HighBits(x, s, block, m);
    HighBits(y, s, block, m);
    SameParts(m, x / block, x / TWO_TO_THE_32, (x % TWO_TO_THE_32) / block,
              y / block, y / TWO_TO_THE_32, (y % TWO_TO_THE_32) / block);
  }

  /**
   Normalising an IPv4-mapped prefix of length 96 or more (section 2.5.5.2 of RFC 4291) keeps its members: an
   address belongs to the prefix exactly when it is mapped and its IPv4 form belongs to the normalised one.
   */
  lemma NormalizedMembers(p: Prefix, a: Address)
    requires p.Valid() && Is4In6(p.address) && p.length >= 96 && a.Valid() && a.V6?
    ensures Contains(p, a) <==> Is4In6(a) && Contains(NormalizeIPPrefix(p), Unmap(a))
  {
    SameBlock(a.bits, p.address.bits, 128 - p.length);
    MaskedContains(Prefix(Unmap(p.address), p.length - 96), Unmap(a));
  }

  /** Every other prefix keeps its members as they are, so a shorter mapped prefix still holds no IPv4 address. */
  lemma NormalizedElsewhere(p: Prefix, a: Address)
    requires p.Valid() && !(Is4In6(p.address) && p.length >= 96)
    ensures Contains(NormalizeIPPrefix(p), a) <==> Contains(p, a)
    ensures p.address.V6? && a.V4? ==> !Contains(NormalizeIPPrefix(p), a)
  {
    MaskedContains(p, a);
  }

  // ----- The effective client

  predicate Trusted(a: Address, trust: seq<Prefix>) {
    exists k | 0 <= k < |trust| :: Contains(trust[k], Unmap(a))
  }

  /** An address is trusted exactly when some prefix holds it, and a mapped one exactly when its IPv4 form is. */
  lemma TrustMeans(a: Address, trust: seq<Prefix>)
    requires a.V4? && a.Valid()
    ensures Trusted(a, trust) <==> exists k | 0 <= k < |trust| :: Contains(trust[k], a)
    ensures Trusted(V6(0xFFFF_0000_0000 + a.bits), trust) <==> Trusted(a, trust)
  {
    UnmapMeans(V6(0xFFFF_0000_0000 + a.bits));
  }

  method IsTrustedProxy(a: Address, trust: seq<Prefix>) returns (ok: bool)
    ensures ok == Trusted(a, trust)
  {
    var address := Unmap(a);
    for k := 0 to |trust|
      invariant forall j | 0 <= j < k :: !Contains(trust[j], address)
    {
      if Contains(trust[k], address) { return true; }
    }
    return false;
  }

  function Flatten(values: seq<seq<Entry>>): seq<Entry> {
    if |values| == 0 then [] else Flatten(values[..|values| - 1]) + values[|values| - 1]
  }

  predicate WellFormed(entries: seq<Entry>) {
    forall k | 0 <= k < |entries| :: entries[k].Literal? && !entries[k].zoned
  }

  function Addresses(entries: seq<Entry>): (addresses: seq<Address>)
    requires WellFormed(entries)
  {
    seq(|entries|, k requires 0 <= k < |entries| => Unmap(entries[k].address))
  }

  /** The address before which everything is the client's own claim: untrusted, with only trusted ones after it. */
  ghost predicate RightmostUntrusted(addresses: seq<Address>, trust: seq<Prefix>, a: Option<Address>) {
    match a
    case None => forall k | 0 <= k < |addresses| :: Trusted(addresses[k], trust)
    case Some(address) =>
      exists k | 0 <= k < |addresses| ::
        && addresses[k] == address && !Trusted(address, trust)
        && forall j | k < j < |addresses| :: Trusted(addresses[j], trust)
  }

  /** What the effective client of a request is. */
  ghost predicate IsClient(peer: Option<Address>, forwarded: seq<seq<Entry>>, trust: seq<Prefix>, client: Option<Address>) {
    match peer
    case None => client == None
    case Some(p) =>
      if !Trusted(p, trust) then client == Some(Unmap(p))
      else if !WellFormed(Flatten(forwarded)) then client == None
      else RightmostUntrusted(Addresses(Flatten(forwarded)), trust, client)
  }

  method EffectiveClientIP(peer: Option<Address>, forwarded: seq<seq<Entry>>, trust: seq<Prefix>)
    returns (client: Option<Address>)
    ensures IsClient(peer, forwarded, trust, client)
  {
    if peer.None? { return None; }
    var address := Unmap(peer.value);
    assert Unmap(address) == address by { UnmapTwice(peer.value); }
    var trusted := IsTrustedProxy(address, trust);
    if !trusted { return Some(address); }
    if |forwarded| == 0 { return None; }
    var addresses: seq<Address> := [];
    for v := 0 to |forwarded|
      invariant WellFormed(Flatten(forwarded[..v])) && addresses == Addresses(Flatten(forwarded[..v]))
    {
      assert forwarded[..v + 1][..v] == forwarded[..v];
      ghost var front := Flatten(forwarded[..v]);
      for t := 0 to |forwarded[v]|
        invariant WellFormed(front + forwarded[v][..t]) && addresses == Addresses(front + forwarded[v][..t])
      {
        var entry := forwarded[v][t];
        if entry.Malformed? || entry.zoned {
          FlattenHas(forwarded, v, t);
          return None;
        }
        assert front + forwarded[v][..t + 1] == (front + forwarded[v][..t]) + [entry];
        addresses := addresses + [Unmap(entry.address)];
      }
      assert forwarded[v][..|forwarded[v]|] == forwarded[v];
    }
    assert forwarded[..|forwarded|] == forwarded;
    var index := |addresses|;
    while index > 0
      invariant 0 <= index <= |addresses|
      invariant forall k | index <= k < |addresses| :: Trusted(addresses[k], trust)
    {
      index := index - 1;
      trusted := IsTrustedProxy(addresses[index], trust);
      if !trusted { return Some(addresses[index]); }
    }
    return None;
  }

  lemma UnmapTwice(a: Address)
    ensures Unmap(Unmap(a)) == Unmap(a)
  {
  }

  lemma {:induction false} FlattenHas(values: seq<seq<Entry>>, v: nat, t: nat)
    requires v < |values| && t < |values[v]|
    ensures values[v][t] in Flatten(values)
  {
    if v < |values| - 1 {
      FlattenHas(values[..|values| - 1], v, t);
    }
  }

  lemma ClientUnique(peer: Option<Address>, forwarded: seq<seq<Entry>>, trust: seq<Prefix>, a: Option<Address>, b: Option<Address>)
    requires IsClient(peer, forwarded, trust, a) && IsClient(peer, forwarded, trust, b)
    ensures a == b
  {
  }

  /** An entry that is no address, or one with a zone. */
  predicate Unusable(e: Entry) { e.Malformed? || e.zoned }

  /** Behind a trusted peer a single unusable entry, wherever it is, leaves no client at all, and so does an absent header. */
  lemma NoClientFromBadHeaders(peer: Address, forwarded: seq<seq<Entry>>, trust: seq<Prefix>, client: Option<Address>, v: nat, t: nat)
    requires Trusted(peer, trust) && IsClient(Some(peer), forwarded, trust, client)
    ensures forwarded == [] ==> client == None
    ensures v < |forwarded| && t < |forwarded[v]| && Unusable(forwarded[v][t]) ==> client == None
  {
    if v < |forwarded| && t < |forwarded[v]| {
      FlattenHas(forwarded, v, t);
    }
  }

  /** Address `k` is the last one that is not trusted. */
  ghost predicate LastUntrusted(given: seq<Address>, trust: seq<Prefix>, k: nat) {
    && k < |given| && !Trusted(given[k], trust)
    && forall j | k < j < |given| :: Trusted(given[j], trust)
  }

  /** With addresses alone the client is the last untrusted one, and there is none exactly when all are trusted. */
  lemma ClientAmongEntries(peer: Address, given: seq<Address>, entries: seq<Entry>, trust: seq<Prefix>, client: Option<Address>)
    requires Trusted(peer, trust) && IsClient(Some(peer), [entries], trust, client)
    requires |entries| == |given| && forall k | 0 <= k < |given| :: entries[k] == Literal(given[k], false)
    ensures client.Some? ==> exists k: nat :: LastUntrusted(given, trust, k) && client.value == Unmap(given[k])
    ensures client.None? ==> forall k | 0 <= k < |given| :: Trusted(given[k], trust)
  {
    OneValue(entries);
    assert WellFormed(entries);
    ClientAmongAddresses(given, Addresses(entries), trust, client);
  }

  lemma ClientAmongAddresses(given: seq<Address>, addresses: seq<Address>, trust: seq<Prefix>, client: Option<Address>)
    requires |given| == |addresses| && forall k | 0 <= k < |given| :: addresses[k] == Unmap(given[k])
    requires RightmostUntrusted(addresses, trust, client)
    ensures client.Some? ==> exists k: nat :: LastUntrusted(given, trust, k) && client.value == Unmap(given[k])
    ensures client.None? ==> forall k | 0 <= k < |given| :: Trusted(given[k], trust)
  {
    SameTrust(given, addresses, trust);
    if client.Some? {
      var k: nat :| k < |addresses| && addresses[k] == client.value && !Trusted(client.value, trust)
        && forall j | k < j < |addresses| :: Trusted(addresses[j], trust);
      assert LastUntrusted(given, trust, k);
    }
  }

  lemma OneValue(entries: seq<Entry>)
    ensures Flatten([entries]) == entries
  {
    assert [entries][..0] == [];
    assert [] + entries == entries;
  }

  lemma SameTrust(given: seq<Address>, addresses: seq<Address>, trust: seq<Prefix>)
    requires |given| == |addresses| && forall k | 0 <= k < |given| :: addresses[k] == Unmap(given[k])
    ensures forall k | 0 <= k < |given| :: Trusted(addresses[k], trust) <==> Trusted(given[k], trust)
  {
    forall k | 0 <= k < |given|
      ensures Trusted(addresses[k], trust) <==> Trusted(given[k], trust)
    {
      UnmapTwice(given[k]);
    }
  }

  /** A client behind an untrusted peer cannot change the result with any header. */
  lemma UntrustedPeerDecides(
    peer: Address, one: seq<seq<Entry>>, other: seq<seq<Entry>>, trust: seq<Prefix>, a: Option<Address>, b: Option<Address>)
    requires !Trusted(peer, trust)
    requires IsClient(Some(peer), one, trust, a) && IsClient(Some(peer), other, trust, b)
    ensures a == b == Some(Unmap(peer))
  {
  }

  lemma {:induction false} FlattenPrepend(first: seq<Entry>, values: seq<seq<Entry>>)
    ensures Flatten([first] + values) == first + Flatten(values)
  {
    if |values| > 0 {
      var all, front := [first] + values, values[..|values| - 1];
      FlattenPrepend(first, front);
      assert all[..|all| - 1] == [first] + front;
    } else {
      assert ([first] + values)[..0] == [];
    }
  }

  /** A header with these entries in front: in a value of their own, or at the start of the first value. */
  ghost predicate Prepends(claimed: seq<Entry>, forwarded: seq<seq<Entry>>, longer: seq<seq<Entry>>) {
    || longer == [claimed] + forwarded
    || (|forwarded| > 0 && longer == [claimed + forwarded[0]] + forwarded[1..])
  }

  lemma PrependsInFront(claimed: seq<Entry>, forwarded: seq<seq<Entry>>, longer: seq<seq<Entry>>)
    requires Prepends(claimed, forwarded, longer)
    ensures Flatten(longer) == claimed + Flatten(forwarded)
  {
    if longer == [claimed] + forwarded {
      FlattenPrepend(claimed, forwarded);
    } else {
      assert forwarded == [forwarded[0]] + forwarded[1..];
      FlattenPrepend(forwarded[0], forwarded[1..]);
      FlattenPrepend(claimed + forwarded[0], forwarded[1..]);
      assert claimed + (forwarded[0] + Flatten(forwarded[1..])) == (claimed + forwarded[0]) + Flatten(forwarded[1..]);
    }
  }

  /**
   What a client prepends does not matter: once an untrusted address has been found, any well-formed entries
   before the others, in a value of their own or not, leave the result as it was.
   */
  lemma PrependedEntriesAreIgnored(
    peer: Option<Address>, claimed: seq<Entry>, forwarded: seq<seq<Entry>>, longer: seq<seq<Entry>>, trust: seq<Prefix>,
    a: Option<Address>, b: Option<Address>)
    requires WellFormed(claimed) && a.Some? && Prepends(claimed, forwarded, longer)
    requires IsClient(peer, forwarded, trust, a) && IsClient(peer, longer, trust, b)
    ensures a == b
  {
    PrependsInFront(claimed, forwarded, longer);
    var rest := Flatten(forwarded);
    if peer.Some? && Trusted(peer.value, trust) && WellFormed(rest) {
      assert Addresses(claimed + rest) == Addresses(claimed) + Addresses(rest);
      PrependedAddresses(Addresses(claimed), Addresses(rest), trust, a);
      var k :| 0 <= k < |Addresses(claimed + rest)| && Some(Addresses(claimed + rest)[k]) == a;
    }
  }

  lemma PrependedAddresses(claimed: seq<Address>, addresses: seq<Address>, trust: seq<Prefix>, a: Option<Address>)
    requires a.Some? && RightmostUntrusted(addresses, trust, a)
    ensures RightmostUntrusted(claimed + addresses, trust, a)
  {
    var k :| 0 <= k < |addresses| && addresses[k] == a.value && !Trusted(a.value, trust)
      && forall j | k < j < |addresses| :: Trusted(addresses[j], trust);
    var all := claimed + addresses;
    assert all[|claimed| + k] == a.value;
    forall j | |claimed| + k < j < |all| ensures Trusted(all[j], trust) {
      assert all[j] == addresses[j - |claimed|];
    }
  }
}
