/** What the network selection and the packet guarantee. */
module WolProperties {
  import opened Types
  import opened Hosts
  import opened Ipv4
  import opened WolSpec

  // ------------------------------------------------------- longest prefix

  /** `c` is the only candidate of longest prefix that contains a target. */
  ghost predicate UniqueLongest(e: set<Candidate>, ips: seq<Bytes>, c: Candidate) {
    && c in e && Matches(c, ips)
    && forall d :: d in e && Matches(d, ips) && d != c ==> d.prefix < c.prefix
  }

  lemma OnlyIsTheElement(pool: set<Candidate>, c: Candidate)
    ensures Only(pool) == Ok(c) <==> pool == {c}
  {
    if Only(pool) == Ok(c) {
      assert |pool| == 1 && c in pool;
      assert |pool - {c}| == 0;
      assert pool == {c};
    }
  }

  /** With a target to match, the selection succeeds exactly with the unique eligible
      candidate of longest matching prefix. */
  lemma SelectsUniqueLongest(h: Host, net: Network, e: set<Candidate>, ips: seq<Bytes>, c: Candidate)
    requires e != {} && NeedsTarget(h, e) && Resolved(h, net) == Some(ips)
    ensures Chosen(h, net, e) == Ok(c) <==> UniqueLongest(e, ips, c)
  {
    OnlyIsTheElement(BestIn(e, ips), c);
    if UniqueLongest(e, ips, c) {
      assert BestIn(e, ips) == {c};
    }
    if BestIn(e, ips) == {c} {
      assert c in BestIn(e, ips);
      forall d | d in e && Matches(d, ips) && d != c ensures d.prefix < c.prefix {
        assert d.prefix <= c.prefix;
        assert d.prefix == c.prefix ==> d in BestIn(e, ips);
      }
    }
  }

  lemma {:induction false} LongestExists(e: set<Candidate>, ips: seq<Bytes>) returns (c: Candidate)
    requires exists d :: d in e && Matches(d, ips)
    ensures c in BestIn(e, ips)
    decreases |e|
  {
    c :| c in e && Matches(c, ips);
    if c !in BestIn(e, ips) {
      var longer := set d | d in e && Matches(d, ips) && d.prefix > c.prefix;
      var d :| d in e && Matches(d, ips) && d.prefix > c.prefix;
      assert d in longer && longer <= e - {c};
      SubsetSize(longer, e - {c});
      c := LongestExists(longer, ips);
    }
  }

  lemma OnlyFails(pool: set<Candidate>)
    ensures Only(pool) == Err(NoMatchingNetwork) <==> pool == {}
    ensures Only(pool) == Err(AmbiguousNetworks) <==> exists c, d :: c in pool && d in pool && c != d
  {
    if pool != {} {
      var c :| c in pool;
      assert |pool| == |pool - {c}| + 1;
      if |pool| != 1 {
        assert pool - {c} != {};
        var d :| d in pool - {c};
      }
    }
    if c, d :| c in pool && d in pool && c != d {
      assert d in pool - {c};
      assert |pool| == |pool - {c}| + 1;
    }
  }

  /** It fails for want of a match exactly when no candidate contains a target, and
      as ambiguous exactly when two candidates tie for the longest prefix. */
  lemma FailsWithoutMatchOrOnTie(h: Host, net: Network, e: set<Candidate>, ips: seq<Bytes>)
    requires e != {} && NeedsTarget(h, e) && Resolved(h, net) == Some(ips)
    ensures Chosen(h, net, e) == Err(NoMatchingNetwork) <==> !exists c :: c in e && Matches(c, ips)
    ensures Chosen(h, net, e) == Err(AmbiguousNetworks) <==>
      exists c, d :: c in BestIn(e, ips) && d in BestIn(e, ips) && c != d
  {
    OnlyFails(BestIn(e, ips));
    if exists c :: c in e && Matches(c, ips) {
      var c := LongestExists(e, ips);
    }
  }

  /** The whole selection: once everything is listed and the target resolved, it gives
      `c` exactly if `c` is eligible, contains a target, and has a longer prefix than
      every other eligible network that contains one. */
  lemma SelectedIsUniqueLongest(h: Host, net: Network, ips: seq<Bytes>, c: Candidate)
    requires net.interfaces.Some? && FirstFailure(h, net.lower, net.interfaces.value).None?
    requires NeedsTarget(h, EligibleSet(h, net.lower, net.interfaces.value)) && Resolved(h, net) == Some(ips)
    ensures Selected(h, net) == Ok(c) <==>
      && Eligible(h, net.lower, net.interfaces.value, c) && Matches(c, ips)
      && forall d :: Eligible(h, net.lower, net.interfaces.value, d) && Matches(d, ips) && d != c ==> d.prefix < c.prefix
  {
    var e := EligibleSet(h, net.lower, net.interfaces.value);
    forall d ensures d in e <==> Eligible(h, net.lower, net.interfaces.value, d) {
      EligibleSetIsEligible(h, net.lower, net.interfaces.value, d);
    }
    if e != {} { SelectsUniqueLongest(h, net, e, ips, c); }
  }

  /** Where no target is needed, it gives the one eligible network, if there is just one. */
  lemma SelectedIsTheOnlyOne(h: Host, net: Network, c: Candidate)
    requires net.interfaces.Some? && FirstFailure(h, net.lower, net.interfaces.value).None?
    requires !NeedsTarget(h, EligibleSet(h, net.lower, net.interfaces.value))
    ensures Selected(h, net) == Ok(c) <==>
      && Eligible(h, net.lower, net.interfaces.value, c)
      && forall d :: Eligible(h, net.lower, net.interfaces.value, d) ==> d == c
  {
    var e := EligibleSet(h, net.lower, net.interfaces.value);
    forall d ensures d in e <==> Eligible(h, net.lower, net.interfaces.value, d) {
      EligibleSetIsEligible(h, net.lower, net.interfaces.value, d);
    }
    OnlyIsTheElement(e, c);
    assert e == {c} <==> c in e && forall d :: d in e ==> d == c;
  }

  // ---------------------------------------------------------- order and skips

  predicate SameAddresses(a: Interface, b: Interface) {
    && a.addrs.Some? == b.addrs.Some?
    && (a.addrs.Some? ==>
          (forall x :: x in a.addrs.value ==> x in b.addrs.value)
          && (forall x :: x in b.addrs.value ==> x in a.addrs.value))
  }

  /** The same interface with its addresses reordered or repeated. */
  predicate SameInterface(a: Interface, b: Interface) {
    a.(addrs := None) == b.(addrs := None) && SameAddresses(a, b)
  }

  ghost predicate HasSame(f: Interface, fs: seq<Interface>) {
    exists j :: 0 <= j < |fs| && SameInterface(f, fs[j])
  }

  /** Every interface of `a` is one of `b`, addresses reordered or repeated at most. */
  ghost predicate Covers(a: seq<Interface>, b: seq<Interface>) {
    a == [] || (HasSame(a[0], b) && Covers(a[1..], b))
  }

  lemma {:induction false} PermutedCovers(a: seq<Interface>, b: seq<Interface>)
    requires forall f :: f in a ==> f in b
    ensures Covers(a, b)
  {
    if a != [] {
      assert a[0] in a && a[0] in b;
      var j :| 0 <= j < |b| && b[j] == a[0];
      assert SameInterface(a[0], b[j]);
      PermutedCovers(a[1..], b);
    }
  }

  lemma SameInterfaceOffers(a: Interface, b: Interface, c: Candidate)
    requires SameInterface(a, b) && Offers(a, c)
    ensures Offers(b, c)
  {
    var j :| 0 <= j < |a.addrs.value| && CandidateOf(a.index, a.addrs.value[j]) == Some(c);
    var x := a.addrs.value[j];
    assert x in b.addrs.value;
    var k :| 0 <= k < |b.addrs.value| && b.addrs.value[k] == x;
    assert a.index == a.(addrs := None).index == b.(addrs := None).index == b.index;
    assert CandidateOf(b.index, b.addrs.value[k]) == Some(c);
  }

  lemma SameInterfaceConsidered(h: Host, lower: string -> string, a: Interface, b: Interface)
    requires SameInterface(a, b)
    ensures Considered(h, lower, a) == Considered(h, lower, b)
  {
    var x, y := a.(addrs := None), b.(addrs := None);
    assert x.name == y.name && x.up == y.up && x.loopback == y.loopback && x.broadcast == y.broadcast;
  }

  lemma {:induction false} CoveredStaysEligible(h: Host, lower: string -> string, a: seq<Interface>, b: seq<Interface>, c: Candidate)
    requires Covers(a, b) && Eligible(h, lower, a, c)
    ensures Eligible(h, lower, b, c)
  {
    var i :| 0 <= i < |a| && Considered(h, lower, a[i]) && Offers(a[i], c);
    if i == 0 {
      var j :| 0 <= j < |b| && SameInterface(a[0], b[j]);
      SameInterfaceOffers(a[0], b[j], c);
      SameInterfaceConsidered(h, lower, a[0], b[j]);
    } else {
      assert a[1..][i - 1] == a[i];
      CoveredStaysEligible(h, lower, a[1..], b, c);
    }
  }

  lemma CoveredStaysInSet(h: Host, lower: string -> string, a: seq<Interface>, b: seq<Interface>, c: Candidate)
    requires Covers(a, b) && c in EligibleSet(h, lower, a)
    ensures c in EligibleSet(h, lower, b)
  {
    EligibleSetIsEligible(h, lower, a, c);
    EligibleSetIsEligible(h, lower, b, c);
    CoveredStaysEligible(h, lower, a, b, c);
  }

  lemma CoveredSubset(h: Host, lower: string -> string, a: seq<Interface>, b: seq<Interface>)
    requires Covers(a, b)
    ensures EligibleSet(h, lower, a) <= EligibleSet(h, lower, b)
  {
    forall c | c in EligibleSet(h, lower, a) ensures c in EligibleSet(h, lower, b) {
      CoveredStaysInSet(h, lower, a, b, c);
    }
  }

  predicate SameIps(a: Option<seq<Bytes>>, b: Option<seq<Bytes>>) {
    && a.Some? == b.Some?
    && (a.Some? ==> (forall x :: x in a.value ==> x in b.value) && (forall x :: x in b.value ==> x in a.value))
  }

  lemma SameIpsMatch(a: seq<Bytes>, b: seq<Bytes>, c: Candidate)
    requires forall x :: x in a ==> x in b
    requires Matches(c, a)
    ensures Matches(c, b)
  {
    var i :| 0 <= i < |a| && Contains(c, a[i]);
    assert a[i] in b;
    var j :| 0 <= j < |b| && b[j] == a[i];
  }

  lemma SameIpsSameBest(e: set<Candidate>, a: seq<Bytes>, b: seq<Bytes>)
    requires SameIps(Some(a), Some(b))
    ensures BestIn(e, a) == BestIn(e, b)
  {
    forall c ensures Matches(c, a) <==> Matches(c, b) {
      if Matches(c, a) { SameIpsMatch(a, b, c); }
      if Matches(c, b) { SameIpsMatch(b, a, c); }
    }
  }

  lemma SelectedBySet(h: Host, a: Network, b: Network)
    requires a.interfaces.Some? && b.interfaces.Some? && a.lower == b.lower
    requires EligibleSet(h, a.lower, a.interfaces.value) == EligibleSet(h, b.lower, b.interfaces.value)
    requires FirstFailure(h, a.lower, a.interfaces.value).None? && FirstFailure(h, b.lower, b.interfaces.value).None?
    requires Resolved(h, a).Some? == Resolved(h, b).Some?
    requires Resolved(h, a).Some? ==>
      forall e :: BestIn(e, Resolved(h, a).value) == BestIn(e, Resolved(h, b).value)
    ensures Selected(h, a) == Selected(h, b)
  {
  }

  /** When everything can be listed and looked up, the result does not depend on the
      order of interfaces, addresses or resolved IPs, nor on repetitions of them. */
  lemma OrderDoesNotMatter(h: Host, a: Network, b: Network)
    requires a.interfaces.Some? && b.interfaces.Some? && a.lower == b.lower
    requires Covers(a.interfaces.value, b.interfaces.value) && Covers(b.interfaces.value, a.interfaces.value)
    requires FirstFailure(h, a.lower, a.interfaces.value).None? && FirstFailure(h, b.lower, b.interfaces.value).None?
    requires SameIps(Resolved(h, a), Resolved(h, b))
    ensures Selected(h, a) == Selected(h, b)
  {
    CoveredSubset(h, a.lower, a.interfaces.value, b.interfaces.value);
    CoveredSubset(h, a.lower, b.interfaces.value, a.interfaces.value);
    if Resolved(h, a).Some? {
      forall e ensures BestIn(e, Resolved(h, a).value) == BestIn(e, Resolved(h, b).value) {
        SameIpsSameBest(e, Resolved(h, a).value, Resolved(h, b).value);
      }
    }
    SelectedBySet(h, a, b);
  }

  lemma MoreSkipsConsiderLess(h: Host, lower: string -> string, extra: seq<string>, f: Interface)
    ensures Considered(h.(skipInterfaces := h.skipInterfaces + extra), lower, f)
      <==> Considered(h, lower, f) && !SkippedBy(lower, f.name, extra)
  {
    var all := h.skipInterfaces + extra;
    if SkippedBy(lower, f.name, h.skipInterfaces) {
      var i :| 0 <= i < |h.skipInterfaces| && h.skipInterfaces[i] != ""
        && ContainsText(lower(f.name), lower(h.skipInterfaces[i]));
      assert all[i] == h.skipInterfaces[i];
    }
    if SkippedBy(lower, f.name, extra) {
      var i :| 0 <= i < |extra| && extra[i] != "" && ContainsText(lower(f.name), lower(extra[i]));
      assert all[|h.skipInterfaces| + i] == extra[i];
    }
  }

  lemma {:induction false} MoreSkipsFailNoMore(h: Host, lower: string -> string, extra: seq<string>, fs: seq<Interface>)
    requires FirstFailure(h, lower, fs).None?
    ensures FirstFailure(h.(skipInterfaces := h.skipInterfaces + extra), lower, fs).None?
  {
    if fs != [] {
      MoreSkipsConsiderLess(h, lower, extra, fs[0]);
      MoreSkipsFailNoMore(h, lower, extra, fs[1..]);
    }
  }

  lemma MoreSkipsAreFewer(h: Host, lower: string -> string, extra: seq<string>, fs: seq<Interface>)
    ensures EligibleSet(h.(skipInterfaces := h.skipInterfaces + extra), lower, fs) <= EligibleSet(h, lower, fs)
  {
    var g := h.(skipInterfaces := h.skipInterfaces + extra);
    forall c | c in EligibleSet(g, lower, fs) ensures c in EligibleSet(h, lower, fs) {
      EligibleSetIsEligible(g, lower, fs, c);
      EligibleSetIsEligible(h, lower, fs, c);
      var i :| 0 <= i < |fs| && Considered(g, lower, fs[i]) && Offers(fs[i], c);
      MoreSkipsConsiderLess(h, lower, extra, fs[i]);
    }
  }

  lemma ChosenFromFewer(h: Host, g: Host, net: Network, e: set<Candidate>, fewer: set<Candidate>, c: Candidate)
    requires g.ip == h.ip && g.wolInterface == h.wolInterface
    requires fewer <= e && c in fewer && Chosen(h, net, e) == Ok(c)
    ensures Chosen(g, net, fewer) == Ok(c)
  {
    if !NeedsTarget(h, e) {
      OnlyIsTheElement(e, c);
      assert fewer == {c};
      OnlyIsTheElement(fewer, c);
    } else {
      var ips := Resolved(h, net).value;
      SelectsUniqueLongest(h, net, e, ips, c);
      if NeedsTarget(g, fewer) {
        SelectsUniqueLongest(g, net, fewer, ips, c);
      } else {
        OnlyIsTheElement(fewer, c);
        assert |fewer - {c}| == 0;
        assert fewer == {c};
      }
    }
  }

  /** Further skip names change nothing as long as they do not match the name of an
      interface that offers the selected network. */
  lemma UnrelatedSkipsDoNotMatter(h: Host, net: Network, extra: seq<string>, k: nat, c: Candidate)
    requires Selected(h, net) == Ok(c)
    requires net.interfaces.Some? && k < |net.interfaces.value|
    requires var f := net.interfaces.value[k];
      Considered(h, net.lower, f) && Offers(f, c) && !SkippedBy(net.lower, f.name, extra)
    ensures Selected(h.(skipInterfaces := h.skipInterfaces + extra), net) == Ok(c)
  {
    var g, fs := h.(skipInterfaces := h.skipInterfaces + extra), net.interfaces.value;
    MoreSkipsFailNoMore(h, net.lower, extra, fs);
    MoreSkipsAreFewer(h, net.lower, extra, fs);
    MoreSkipsConsiderLess(h, net.lower, extra, fs[k]);
    EligibleSetIsEligible(g, net.lower, fs, c);
    ChosenFromFewer(h, g, net, EligibleSet(h, net.lower, fs), EligibleSet(g, net.lower, fs), c);
  }

  // ------------------------------------------------------------------ broadcast

  function NetworkNumber(c: Candidate): int
    requires WellFormed(c)
  {
    U32(c.ip) - U32(c.ip) % NetworkSize(c.prefix)
  }

  /** The byte-wise `ip | ^mask` is the last number of the network (section 7 of RFC 919). */
  lemma BroadcastIsLastAddress(c: Candidate)
    requires WellFormed(c)
    ensures U32(BroadcastOf(c)) == NetworkNumber(c) + NetworkSize(c.prefix) - 1
  {
    MaskedNumber(c.ip, c.prefix);
    MaskNumber(c.prefix);
    OrNot(c.ip[0], c.mask[0]);
    OrNot(c.ip[1], c.mask[1]);
    OrNot(c.ip[2], c.mask[2]);
    OrNot(c.ip[3], c.mask[3]);
  }

  lemma RoundedDown(x: nat, y: nat, h: nat)
    requires h >= 1
    ensures x - x % h == y - y % h <==> y - y % h <= x < y - y % h + h
  {
    if y - y % h <= x < y - y % h + h {
      Remainder(x, h, y / h, x - (y - y % h));
    }
  }

  /** A network contains exactly the addresses from its number up to its broadcast
      address, so that is the largest address it contains. */
  lemma NetworkIsTheInterval(c: Candidate, t: Bytes)
    requires WellFormed(c) && |t| == 4
    ensures Contains(c, t) <==> NetworkNumber(c) <= U32(t) <= U32(BroadcastOf(c))
    ensures Contains(c, BroadcastOf(c))
  {
    BroadcastIsLastAddress(c);
    ContainsByNumber(c, t);
    ContainsByNumber(c, BroadcastOf(c));
  }

  lemma ContainsByNumber(c: Candidate, t: Bytes)
    requires WellFormed(c) && |t| == 4
    ensures Contains(c, t) <==> NetworkNumber(c) <= U32(t) < NetworkNumber(c) + NetworkSize(c.prefix)
  {
    MaskedNumber(c.ip, c.prefix);
    MaskedNumber(t, c.prefix);
    RoundedDown(U32(t), U32(c.ip), NetworkSize(c.prefix));
    if U32(Masked(t, c.mask)) == U32(Masked(c.ip, c.mask)) {
      U32Injective(Masked(t, c.mask), Masked(c.ip, c.mask));
    }
  }

  // --------------------------------------------------------------- magic packet

  /** The `i`-th copy of the MAC in a packet. */
  function CopyOf(packet: Bytes, i: nat): Bytes
    requires |packet| == 102 && i < 16
  {
    packet[6 + 6 * i..12 + 6 * i]
  }

  /** A receiver's reading: six bytes of ones and sixteen equal copies. */
  function Decode(packet: Bytes): Option<Bytes> {
    if |packet| == 102 && packet[..6] == [255, 255, 255, 255, 255, 255]
       && forall i :: 0 <= i < 16 ==> CopyOf(packet, i) == CopyOf(packet, 0)
    then Some(CopyOf(packet, 0)) else None
  }

  lemma CopiesOfMac(packet: Bytes, mac: Bytes, i: nat)
    requires IsMagicPacket(packet, mac) && i < 16
    ensures CopyOf(packet, i) == mac
  {
    forall j | 0 <= j < 6 ensures CopyOf(packet, i)[j] == mac[j] {
      assert packet[6 + 6 * i + j] == mac[(6 * i + j) % 6];
    }
  }

  /** Reading a packet gives a MAC back exactly if it is the packet for that MAC. */
  lemma PacketRoundTrip(packet: Bytes, mac: Bytes)
    ensures Decode(packet) == Some(mac) <==> IsMagicPacket(packet, mac)
  {
    if IsMagicPacket(packet, mac) {
      forall i | 0 <= i < 16 ensures CopyOf(packet, i) == mac {
        CopiesOfMac(packet, mac, i);
      }
      assert packet[..6] == [255, 255, 255, 255, 255, 255];
    }
    if Decode(packet) == Some(mac) {
      forall k | 0 <= k < 6 ensures packet[k] == 255 {
        assert packet[k] == packet[..6][k];
      }
      forall k | 6 <= k < 102 ensures packet[k] == mac[(k - 6) % 6] {
        var i, j := (k - 6) / 6, (k - 6) % 6;
        assert packet[k] == CopyOf(packet, i)[j];
        assert CopyOf(packet, i) == CopyOf(packet, 0);
      }
    }
  }
}
