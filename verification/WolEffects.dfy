/** Which networks the selection compares and which one it picks, in terms of the fields of
    the interfaces, the bytes of the addresses and the names: nothing here goes through the
    functions that the selection is specified by. */
module WolEffects {
  import opened Types
  import opened Hosts
  import opened Ipv4
  import opened WolSpec
  import opened WolProperties

  // ----------------------------------------------------------- names and interfaces

  ghost predicate Occurs(b: string, a: string) {
    exists p, q :: a == p + b + q
  }

  lemma ContainsTextExactly(a: string, b: string)
    ensures ContainsText(a, b) <==> Occurs(b, a)
  {
    if ContainsText(a, b) {
      var i :| 0 <= i <= |a| - |b| && OccursAt(a, b, i);
      assert a == a[..i] + b + a[i + |b|..];
    }
    if p, q :| a == p + b + q {
      assert a[|p|..|p| + |b|] == b;
      assert OccursAt(a, b, |p|);
    }
  }

  /** The interface may be used for the host: it is up, can broadcast, is no loopback, has
      the configured name if there is one, and its name matches no skip name. */
  ghost predicate Serves(h: Host, lower: string -> string, f: Interface) {
    && f.up && !f.loopback && f.broadcast
    && (h.wolInterface != "" ==> f.name == h.wolInterface)
    && forall s :: s in h.skipInterfaces && s != "" ==> !Occurs(lower(s), lower(f.name))
  }

  lemma ServesExactly(h: Host, lower: string -> string, f: Interface)
    ensures Considered(h, lower, f) <==> Serves(h, lower, f)
  {
    forall s ensures ContainsText(lower(f.name), lower(s)) <==> Occurs(lower(s), lower(f.name)) {
      ContainsTextExactly(lower(f.name), lower(s));
    }
    if Serves(h, lower, f) {
      assert forall i :: 0 <= i < |h.skipInterfaces| ==> h.skipInterfaces[i] in h.skipInterfaces;
    }
    if Considered(h, lower, f) {
      forall s | s in h.skipInterfaces && s != "" ensures !Occurs(lower(s), lower(f.name)) {
        var i :| 0 <= i < |h.skipInterfaces| && h.skipInterfaces[i] == s;
      }
    }
  }

  // -------------------------------------------------------------------- addresses

  const MAPPED: Bytes := [0, 0, 0, 0, 0, 0, 0, 0, 0, 0, 255, 255]

  /** `t` are the four bytes of an IPv4 address, written as such or mapped into IPv6. */
  predicate IsV4(ip: Bytes, t: Bytes) {
    |t| == 4 && (ip == t || ip == MAPPED + t)
  }

  lemma To4Exactly(ip: Bytes, t: Bytes)
    ensures |t| == 4 ==> (To4(ip) == t <==> IsV4(ip, t))
    ensures |To4(ip)| == 4 || To4(ip) == []
  {
    if |ip| == 16 {
      assert ip == ip[..10] + ip[10..12] + ip[12..];
      if |t| == 4 && ip == MAPPED + t {
        assert ip[..10] == MAPPED[..10] && ip[10..12] == MAPPED[10..12] && ip[12..] == t;
      }
      assert MAPPED[..10] + MAPPED[10..12] == MAPPED;
    }
  }

  /** Neither unspecified nor limited broadcast, loopback, multicast or link-local. */
  predicate IsUnicast(t: Bytes)
    requires |t| == 4
  {
    && t != [0, 0, 0, 0] && t != [255, 255, 255, 255]
    && t[0] != 127
    && !(224 <= t[0] <= 239)
    && !(t[0] == 169 && t[1] == 254)
  }

  lemma {:induction false} Pow2Strict(j: nat, n: nat)
    requires j < n
    ensures Pow2(j) < Pow2(n)
  {
    if j + 1 < n { Pow2Strict(j, n - 1); }
  }

  lemma SizeOfMask(n: nat, mask: Bytes)
    requires n <= 32 && mask == MaskOf(n)
    ensures Pow2(32 - n) == 0x1_0000_0000 - U32(mask)
  {
    MaskNumber(n);
  }

  lemma MasksDiffer(m: nat, n: nat)
    requires m <= 32 && n <= 32 && MaskOf(m) == MaskOf(n)
    ensures m == n
  {
    SizeOfMask(m, MaskOf(m));
    SizeOfMask(n, MaskOf(m));
    if m < n { Pow2Strict(32 - n, 32 - m); }
    if n < m { Pow2Strict(32 - m, 32 - n); }
  }

  lemma {:induction false} PrefixFound(n: nat, k: nat)
    requires k <= n <= 32
    ensures PrefixFrom(MaskOf(n), k) == Some(n)
    decreases n - k
  {
    if k < n {
      if MaskOf(k) == MaskOf(n) { MasksDiffer(k, n); }
      PrefixFound(n, k + 1);
    }
  }

  /** The address is one of the network that `c` stands for: a unicast IPv4 address with a
      mask of at most 30 leading ones and zeros after them. */
  ghost predicate Gives(a: Address, c: Candidate) {
    && a.IpNet? && IsV4(a.ip, c.ip) && IsUnicast(c.ip)
    && 0 <= c.prefix <= 30 && a.mask == c.mask == MaskOf(c.prefix)
  }

  lemma CandidateExactly(iface: int, a: Address, c: Candidate)
    ensures CandidateOf(iface, a) == Some(c) <==> c.iface == iface && Gives(a, c)
  {
    if a.IpNet? {
      To4Exactly(a.ip, c.ip);
      if Gives(a, c) { PrefixFound(c.prefix, 0); }
    }
  }

  // ------------------------------------------------------------------ the networks

  ghost predicate ListsAddress(f: Interface, c: Candidate) {
    f.addrs.Some? && exists a :: a in f.addrs.value && Gives(a, c)
  }

  /** The networks that are compared. */
  ghost predicate Offered(h: Host, lower: string -> string, fs: seq<Interface>, c: Candidate) {
    exists f :: f in fs && Serves(h, lower, f) && f.index == c.iface && ListsAddress(f, c)
  }

  lemma OffersExactly(f: Interface, c: Candidate)
    ensures Offers(f, c) <==> f.index == c.iface && ListsAddress(f, c)
  {
    forall a ensures CandidateOf(f.index, a) == Some(c) <==> c.iface == f.index && Gives(a, c) {
      CandidateExactly(f.index, a, c);
    }
    if f.index == c.iface && ListsAddress(f, c) {
      var a :| a in f.addrs.value && Gives(a, c);
      var j :| 0 <= j < |f.addrs.value| && f.addrs.value[j] == a;
      assert CandidateOf(f.index, f.addrs.value[j]) == Some(c);
    }
  }

  lemma OfferedExactly(h: Host, lower: string -> string, fs: seq<Interface>, c: Candidate)
    ensures Eligible(h, lower, fs, c) <==> Offered(h, lower, fs, c)
    ensures c in EligibleSet(h, lower, fs) <==> Offered(h, lower, fs, c)
  {
    EligibleSetIsEligible(h, lower, fs, c);
    forall f ensures Considered(h, lower, f) && Offers(f, c) <==>
      Serves(h, lower, f) && f.index == c.iface && ListsAddress(f, c)
    {
      ServesExactly(h, lower, f);
      OffersExactly(f, c);
    }
    if Offered(h, lower, fs, c) {
      var f :| f in fs && Serves(h, lower, f) && f.index == c.iface && ListsAddress(f, c);
      var i :| 0 <= i < |fs| && fs[i] == f;
      assert Considered(h, lower, fs[i]) && Offers(fs[i], c);
    }
  }

  /** The only network that is compared is `c`. */
  ghost predicate OnlyOffered(h: Host, lower: string -> string, fs: seq<Interface>, c: Candidate) {
    Offered(h, lower, fs, c) && forall d :: Offered(h, lower, fs, d) ==> d == c
  }

  lemma OnlyOfferedExactly(h: Host, lower: string -> string, fs: seq<Interface>)
    ensures |EligibleSet(h, lower, fs)| == 1 <==> exists c :: OnlyOffered(h, lower, fs, c)
    ensures EligibleSet(h, lower, fs) == {} <==> forall c :: !Offered(h, lower, fs, c)
  {
    var e := EligibleSet(h, lower, fs);
    forall c ensures c in e <==> Offered(h, lower, fs, c) {
      OfferedExactly(h, lower, fs, c);
    }
    if |e| == 1 {
      var c :| c in e;
      assert |e - {c}| == 0;
      assert e == {c} && OnlyOffered(h, lower, fs, c);
    }
    if c :| OnlyOffered(h, lower, fs, c) {
      assert e == {c};
    }
  }

  // ------------------------------------------------------------------- the choice

  /** The network contains one of the addresses: it agrees with the network's own in all
      but the host part. */
  ghost predicate Reaches(c: Candidate, ips: seq<Bytes>) {
    && |c.ip| == 4 && 0 <= c.prefix <= 30
    && exists ip, t :: ip in ips && IsV4(ip, t) && U32(t) / NetworkSize(c.prefix) == U32(c.ip) / NetworkSize(c.prefix)
  }

  lemma SameQuotient(x: nat, y: nat, h: nat)
    requires h >= 1
    ensures y - y % h <= x < y - y % h + h <==> x / h == y / h
  {
    var q := y / h;
    QuotientBelow(x, h, q);
    QuotientBelow(x, h, q + 1);
    Distributes(q, 1, h);
  }

  lemma QuotientBelow(x: nat, h: nat, q: nat)
    requires h >= 1
    ensures x / h < q <==> x < q * h
  {
    var d := x / h;
    Distributes(d, q - d, h);
    Multiples(q - d, h);
  }

  lemma ContainsExactly(c: Candidate, t: Bytes)
    requires WellFormed(c) && |t| == 4
    ensures Contains(c, t) <==> U32(t) / NetworkSize(c.prefix) == U32(c.ip) / NetworkSize(c.prefix)
  {
    ContainsByNumber(c, t);
    SameQuotient(U32(t), U32(c.ip), NetworkSize(c.prefix));
  }

  lemma ReachesExactly(c: Candidate, ips: seq<Bytes>)
    requires WellFormed(c)
    ensures Matches(c, ips) <==> Reaches(c, ips)
  {
    if Matches(c, ips) {
      var i :| 0 <= i < |ips| && Contains(c, ips[i]);
      var t := To4(ips[i]);
      To4Exactly(ips[i], t);
      To4Exactly(t, t);
      assert Contains(c, t);
      ContainsExactly(c, t);
      assert ips[i] in ips && IsV4(ips[i], t);
    }
    if Reaches(c, ips) {
      var ip, t :| ip in ips && IsV4(ip, t) && U32(t) / NetworkSize(c.prefix) == U32(c.ip) / NetworkSize(c.prefix);
      To4Exactly(ip, t);
      To4Exactly(t, t);
      ContainsExactly(c, t);
      var i :| 0 <= i < |ips| && ips[i] == ip;
      assert Contains(c, ips[i]);
    }
  }

  /** The addresses of the host: the configured one, or what its name resolves to. */
  function TargetsOf(h: Host, net: Network): Option<seq<Bytes>> {
    if net.parseIp(h.ip).Some? then Some([net.parseIp(h.ip).value]) else net.lookup(h.ip)
  }

  /** All interfaces that may be used can be listed. */
  ghost predicate AllListed(h: Host, lower: string -> string, fs: seq<Interface>) {
    forall f :: f in fs && Serves(h, lower, f) ==> f.addrs.Some?
  }

  lemma {:induction false} AllListedExactly(h: Host, lower: string -> string, fs: seq<Interface>)
    ensures FirstFailure(h, lower, fs).None? <==> AllListed(h, lower, fs)
  {
    if fs != [] {
      ServesExactly(h, lower, fs[0]);
      AllListedExactly(h, lower, fs[1..]);
      assert forall f :: f in fs <==> f == fs[0] || f in fs[1..];
    }
  }

  /** The failure reported is that of the first interface that may be used and cannot be
      listed. */
  lemma {:induction false} FirstUnlistedFails(h: Host, lower: string -> string, fs: seq<Interface>, k: nat)
    requires k < |fs| && Serves(h, lower, fs[k]) && fs[k].addrs.None?
    requires forall i :: 0 <= i < k ==> Serves(h, lower, fs[i]) ==> fs[i].addrs.Some?
    ensures FirstFailure(h, lower, fs) == Some(fs[k].name)
  {
    ServesExactly(h, lower, fs[0]);
    if k > 0 {
      assert forall i :: 0 <= i < |fs| - 1 ==> fs[1..][i] == fs[i + 1];
      FirstUnlistedFails(h, lower, fs[1..], k - 1);
    }
  }

  /** Where the host has an address, and no interface is configured that leaves a single
      network, the selection picks `c` exactly if `c` is offered, reaches the host, and
      every other offered network that does has a shorter prefix. */
  lemma PicksLongest(h: Host, net: Network, ips: seq<Bytes>, c: Candidate)
    requires net.interfaces.Some? && AllListed(h, net.lower, net.interfaces.value)
    requires h.ip != "" && TargetsOf(h, net) == Some(ips)
    requires h.wolInterface == "" || !exists d :: OnlyOffered(h, net.lower, net.interfaces.value, d)
    ensures Selected(h, net) == Ok(c) <==>
      && Offered(h, net.lower, net.interfaces.value, c) && Reaches(c, ips)
      && forall d :: Offered(h, net.lower, net.interfaces.value, d) && Reaches(d, ips) && d != c ==> d.prefix < c.prefix
  {
    var fs := net.interfaces.value;
    AllListedExactly(h, net.lower, fs);
    OnlyOfferedExactly(h, net.lower, fs);
    SelectedIsUniqueLongest(h, net, ips, c);
    forall d ensures Eligible(h, net.lower, fs, d) && Matches(d, ips) <==> Offered(h, net.lower, fs, d) && Reaches(d, ips) {
      OfferedExactly(h, net.lower, fs, d);
      if Offered(h, net.lower, fs, d) { ReachesExactly(d, ips); }
    }
  }

  /** Otherwise it picks the one network that is offered. */
  lemma PicksOnly(h: Host, net: Network, c: Candidate)
    requires net.interfaces.Some? && AllListed(h, net.lower, net.interfaces.value)
    requires h.ip == "" ||
      (h.wolInterface != "" && exists d :: OnlyOffered(h, net.lower, net.interfaces.value, d))
    ensures Selected(h, net) == Ok(c) <==> OnlyOffered(h, net.lower, net.interfaces.value, c)
  {
    var fs := net.interfaces.value;
    AllListedExactly(h, net.lower, fs);
    OnlyOfferedExactly(h, net.lower, fs);
    SelectedIsTheOnlyOne(h, net, c);
    forall d ensures Eligible(h, net.lower, fs, d) <==> Offered(h, net.lower, fs, d) {
      OfferedExactly(h, net.lower, fs, d);
    }
  }

  predicate ChoiceError(e: WolError) {
    e in {NoEligibleNetwork, ResolveTarget, NoMatchingNetwork, AmbiguousNetworks}
  }

  lemma ChosenFails(h: Host, net: Network, e: set<Candidate>)
    ensures Chosen(h, net, e) == Err(NoEligibleNetwork) <==> e == {}
    ensures Chosen(h, net, e) == Err(ResolveTarget) <==> e != {} && NeedsTarget(h, e) && Resolved(h, net).None?
    ensures Chosen(h, net, e).Err? ==> ChoiceError(Chosen(h, net, e).error)
  {
  }

  /** The host has an address to match, unless an interface is configured that leaves one network. */
  ghost predicate Targeted(h: Host, lower: string -> string, fs: seq<Interface>) {
    h.ip != "" && (h.wolInterface == "" || !exists d :: OnlyOffered(h, lower, fs, d))
  }

  /** When each failure is reported; the one that remains is an ambiguous choice. */
  lemma FailsExactly(h: Host, net: Network, fs: seq<Interface>)
    requires net.interfaces == Some(fs) && AllListed(h, net.lower, fs)
    ensures Selected(h, net) == Err(NoEligibleNetwork) <==> forall c :: !Offered(h, net.lower, fs, c)
    ensures Selected(h, net) == Err(ResolveTarget) <==>
      Targeted(h, net.lower, fs) && TargetsOf(h, net).None? && exists c :: Offered(h, net.lower, fs, c)
    ensures Selected(h, net).Err? ==> ChoiceError(Selected(h, net).error)
  {
    AllListedExactly(h, net.lower, fs);
    OnlyOfferedExactly(h, net.lower, fs);
    ChosenFails(h, net, EligibleSet(h, net.lower, fs));
  }

  lemma FailsWithoutReach(h: Host, net: Network, fs: seq<Interface>)
    requires net.interfaces == Some(fs) && AllListed(h, net.lower, fs)
    ensures Selected(h, net) == Err(NoMatchingNetwork) <==>
      && Targeted(h, net.lower, fs) && TargetsOf(h, net).Some? && (exists c :: Offered(h, net.lower, fs, c))
      && forall c :: Offered(h, net.lower, fs, c) ==> !Reaches(c, TargetsOf(h, net).value)
  {
    var e := EligibleSet(h, net.lower, fs);
    AllListedExactly(h, net.lower, fs);
    OnlyOfferedExactly(h, net.lower, fs);
    ChosenFails(h, net, e);
    if e != {} && NeedsTarget(h, e) && Resolved(h, net).Some? {
      var ips := Resolved(h, net).value;
      FailsWithoutMatchOrOnTie(h, net, e, ips);
      forall c ensures c in e && Matches(c, ips) <==> Offered(h, net.lower, fs, c) && Reaches(c, ips) {
        OfferedExactly(h, net.lower, fs, c);
        if Offered(h, net.lower, fs, c) { ReachesExactly(c, ips); }
      }
    } else if e != {} && !NeedsTarget(h, e) {
      OnlyFails(e);
    }
  }

  /** A selected network is one of an interface that may be used. */
  lemma SelectedIsOffered(h: Host, net: Network, c: Candidate)
    requires Selected(h, net) == Ok(c)
    ensures net.interfaces.Some? && Offered(h, net.lower, net.interfaces.value, c)
  {
    var fs := net.interfaces.value;
    var e := EligibleSet(h, net.lower, fs);
    OnlyIsTheElement(e, c);
    if NeedsTarget(h, e) {
      SelectsUniqueLongest(h, net, e, Resolved(h, net).value, c);
    }
    OfferedExactly(h, net.lower, fs, c);
  }

  /** The packet for a network leaves from its address there, for its last address. */
  ghost predicate GoesThrough(h: Host, net: Network, local: Bytes, remote: Bytes, c: Candidate) {
    && net.interfaces.Some? && Offered(h, net.lower, net.interfaces.value, c)
    && local == c.ip && IsLastOf(remote, c)
  }

  /** `b` is in the network of `c`, and the next number is not. */
  ghost predicate IsLastOf(b: Bytes, c: Candidate) {
    && |b| == |c.ip| == 4 && 0 <= c.prefix <= 30
    && U32(b) / NetworkSize(c.prefix) == U32(c.ip) / NetworkSize(c.prefix)
    && (U32(b) + 1) / NetworkSize(c.prefix) != U32(c.ip) / NetworkSize(c.prefix)
  }

  lemma BroadcastIsLast(c: Candidate)
    requires WellFormed(c)
    ensures IsLastOf(BroadcastOf(c), c)
  {
    BroadcastIsLastAddress(c);
    SameQuotient(U32(BroadcastOf(c)), U32(c.ip), NetworkSize(c.prefix));
    SameQuotient(U32(BroadcastOf(c)) + 1, U32(c.ip), NetworkSize(c.prefix));
  }

  lemma BroadcastGoesThrough(h: Host, net: Network, c: Candidate)
    requires Selected(h, net) == Ok(c) && WellFormed(c)
    ensures GoesThrough(h, net, c.ip, BroadcastOf(c), c)
  {
    SelectedIsOffered(h, net, c);
    BroadcastIsLast(c);
  }
}
