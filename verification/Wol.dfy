/** Wake-on-LAN: the network a packet leaves by, and the packet itself
    (backend/internal/wol/wol.go). */
module WolSpec {
  import opened Types
  import opened Hosts
  import opened Ipv4

  /** `net.Addr`: an IP network, or something else. */
  datatype Address = IpNet(ip: Bytes, mask: Bytes) | OtherAddress

  /** A network interface; `addrs` is None when its addresses cannot be listed. */
  datatype Interface = Interface(
    index: int, name: string, up: bool, loopback: bool, broadcast: bool, addrs: Option<seq<Address>>)

  /** What the selection asks of the system and of the Go library. */
  datatype Network = Network(
    interfaces: Option<seq<Interface>>,
    parseIp: string -> Option<Bytes>,
    lookup: string -> Option<seq<Bytes>>,
    parseMac: string -> Option<Bytes>,
    lower: string -> string)

  datatype Candidate = Candidate(iface: int, ip: Bytes, mask: Bytes, prefix: int)

  datatype WolError =
    | EnumerateInterfaces
    | EnumerateAddresses(name: string)
    | NoEligibleNetwork
    | ResolveTarget
    | NoMatchingNetwork
    | AmbiguousNetworks
    | InvalidMac
    | MacNotSixBytes
    | SendFailed

  /** `IP.To4`: the four bytes of an IPv4 address, nothing for any other. */
  function To4(ip: Bytes): Bytes {
    if |ip| == 4 then ip
    else if |ip| == 16 && ip[..10] == [0, 0, 0, 0, 0, 0, 0, 0, 0, 0] && ip[10..12] == [255, 255] then ip[12..]
    else []
  }

  /** `IsGlobalUnicast` and not `IsLinkLocalUnicast`, for four bytes. */
  predicate GlobalUnicast(ip: Bytes)
    requires |ip| == 4
  {
    && ip != [255, 255, 255, 255] && ip != [0, 0, 0, 0]
    && ip[0] != 127
    && ip[0] / 16 != 14
    && !(ip[0] == 169 && ip[1] == 254)
  }

  function PrefixFrom(mask: Bytes, n: nat): (r: Option<nat>)
    requires n <= 33
    ensures r.Some? ==> r.value <= 32 && mask == MaskOf(r.value)
    decreases 33 - n
  {
    if n == 33 then None else if mask == MaskOf(n) then Some(n) else PrefixFrom(mask, n + 1)
  }

  /** `IPMask.Size` of a four-byte mask: the prefix length, if it is one. */
  function PrefixLength(mask: Bytes): (r: Option<nat>)
    ensures r.Some? ==> r.value <= 32 && mask == MaskOf(r.value)
  {
    PrefixFrom(mask, 0)
  }

  function CandidateOf(iface: int, a: Address): (r: Option<Candidate>)
    ensures r.Some? ==> var c := r.value;
      c.iface == iface && |c.ip| == 4 && 0 <= c.prefix <= 30 && c.mask == MaskOf(c.prefix)
  {
    if a.OtherAddress? then None
    else
      var ip := To4(a.ip);
      if |ip| != 4 || !GlobalUnicast(ip) then None
      else match PrefixLength(a.mask)
        case Some(n) => if n <= 30 then Some(Candidate(iface, ip, a.mask, n)) else None
        case None => None
  }

  predicate ContainsText(a: string, b: string) {
    exists i :: 0 <= i <= |a| - |b| && OccursAt(a, b, i)
  }

  predicate OccursAt(a: string, b: string, i: nat) {
    i + |b| <= |a| && a[i..i + |b|] == b
  }

  predicate SkippedBy(lower: string -> string, name: string, skips: seq<string>) {
    exists i :: 0 <= i < |skips| && skips[i] != "" && ContainsText(lower(name), lower(skips[i]))
  }

  predicate Considered(h: Host, lower: string -> string, f: Interface) {
    && (h.wolInterface == "" || f.name == h.wolInterface)
    && !SkippedBy(lower, f.name, h.skipInterfaces)
    && f.up && !f.loopback && f.broadcast
  }

  ghost predicate OffersIn(iface: int, addrs: seq<Address>, c: Candidate) {
    exists j :: 0 <= j < |addrs| && CandidateOf(iface, addrs[j]) == Some(c)
  }

  /** One of the interface's addresses makes the candidate `c`. */
  ghost predicate Offers(f: Interface, c: Candidate) {
    f.addrs.Some? && OffersIn(f.index, f.addrs.value, c)
  }

  ghost predicate Eligible(h: Host, lower: string -> string, fs: seq<Interface>, c: Candidate) {
    exists i :: 0 <= i < |fs| && Considered(h, lower, fs[i]) && Offers(fs[i], c)
  }

  function CandidatesIn(iface: int, addrs: seq<Address>): set<Candidate> {
    if addrs == [] then {}
    else
      var first := CandidateOf(iface, addrs[0]);
      (if first.Some? then {first.value} else {}) + CandidatesIn(iface, addrs[1..])
  }

  function EligibleSet(h: Host, lower: string -> string, fs: seq<Interface>): set<Candidate> {
    if fs == [] then {}
    else
      var here := if Considered(h, lower, fs[0]) && fs[0].addrs.Some?
                  then CandidatesIn(fs[0].index, fs[0].addrs.value) else {};
      here + EligibleSet(h, lower, fs[1..])
  }

  lemma {:induction false} CandidatesInOffers(iface: int, addrs: seq<Address>, c: Candidate)
    ensures c in CandidatesIn(iface, addrs) <==> OffersIn(iface, addrs, c)
  {
    if addrs != [] {
      CandidatesInOffers(iface, addrs[1..], c);
      if c in CandidatesIn(iface, addrs[1..]) {
        var j :| 0 <= j < |addrs[1..]| && CandidateOf(iface, addrs[1..][j]) == Some(c);
        assert CandidateOf(iface, addrs[j + 1]) == Some(c);
      }
      if j :| 0 <= j < |addrs| && CandidateOf(iface, addrs[j]) == Some(c) {
        assert j > 0 ==> addrs[j] == addrs[1..][j - 1];
      }
    }
  }

  lemma {:induction false} EligibleSetIsEligible(h: Host, lower: string -> string, fs: seq<Interface>, c: Candidate)
    ensures c in EligibleSet(h, lower, fs) <==> Eligible(h, lower, fs, c)
  {
    if fs != [] {
      EligibleSetIsEligible(h, lower, fs[1..], c);
      if fs[0].addrs.Some? { CandidatesInOffers(fs[0].index, fs[0].addrs.value, c); }
      if Eligible(h, lower, fs[1..], c) {
        var i :| 0 <= i < |fs[1..]| && Considered(h, lower, fs[1..][i]) && Offers(fs[1..][i], c);
        assert Considered(h, lower, fs[i + 1]) && Offers(fs[i + 1], c);
      }
      if i :| 0 <= i < |fs| && Considered(h, lower, fs[i]) && Offers(fs[i], c) {
        assert i > 0 ==> fs[i] == fs[1..][i - 1];
      }
    }
  }

  /** The first considered interface whose addresses cannot be listed. */
  function FirstFailure(h: Host, lower: string -> string, fs: seq<Interface>): Option<string> {
    if fs == [] then None
    else if Considered(h, lower, fs[0]) && fs[0].addrs.None? then Some(fs[0].name)
    else FirstFailure(h, lower, fs[1..])
  }

  // ------------------------------------------------------------ the selection

  predicate WellFormed(c: Candidate) {
    |c.ip| == 4 && 0 <= c.prefix <= 30 && c.mask == MaskOf(c.prefix)
  }

  /** `IPNet.Contains`. */
  predicate Contains(c: Candidate, ip: Bytes)
    requires WellFormed(c)
  {
    var t := To4(ip);
    |t| == 4 && Masked(t, c.mask) == Masked(c.ip, c.mask)
  }

  predicate Matches(c: Candidate, ips: seq<Bytes>) {
    WellFormed(c) && exists i :: 0 <= i < |ips| && Contains(c, ips[i])
  }

  /** The matching candidates of longest prefix. */
  ghost function BestIn(e: set<Candidate>, ips: seq<Bytes>): set<Candidate> {
    set c | c in e && Matches(c, ips) && forall d :: d in e && Matches(d, ips) ==> d.prefix <= c.prefix
  }

  function Resolved(h: Host, net: Network): Option<seq<Bytes>> {
    match net.parseIp(h.ip)
    case Some(ip) => Some([ip])
    case None => net.lookup(h.ip)
  }

  /** An explicit interface with one address needs no target; nor does a host without one. */
  ghost predicate NeedsTarget(h: Host, e: set<Candidate>) {
    h.ip != "" && !(h.wolInterface != "" && |e| == 1)
  }

  ghost function Only(pool: set<Candidate>): Result<Candidate, WolError> {
    if pool == {} then Err(NoMatchingNetwork)
    else if |pool| != 1 then Err(AmbiguousNetworks)
    else var c :| c in pool; Ok(c)
  }

  ghost function Chosen(h: Host, net: Network, e: set<Candidate>): Result<Candidate, WolError> {
    if e == {} then Err(NoEligibleNetwork)
    else if !NeedsTarget(h, e) then Only(e)
    else match Resolved(h, net)
      case None => Err(ResolveTarget)
      case Some(ips) => Only(BestIn(e, ips))
  }

  /** The network selected for a host, or why there is none. */
  ghost function Selected(h: Host, net: Network): Result<Candidate, WolError> {
    if net.interfaces.None? then Err(EnumerateInterfaces)
    else
      var fs := net.interfaces.value;
      match FirstFailure(h, net.lower, fs)
      case Some(name) => Err(EnumerateAddresses(name))
      case None => Chosen(h, net, EligibleSet(h, net.lower, fs))
  }

  function BroadcastOf(c: Candidate): (b: Bytes)
    requires |c.ip| == |c.mask| == 4
    ensures |b| == 4
  {
    [Or(c.ip[0], Not(c.mask[0])), Or(c.ip[1], Not(c.mask[1])), Or(c.ip[2], Not(c.mask[2])), Or(c.ip[3], Not(c.mask[3]))]
  }

  /** Six bytes of ones, then the MAC sixteen times. */
  predicate IsMagicPacket(packet: Bytes, mac: Bytes) {
    && |mac| == 6 && |packet| == 102
    && (forall i :: 0 <= i < 6 ==> packet[i] == 255)
    && forall k :: 6 <= k < 102 ==> packet[k] == mac[(k - 6) % 6]
  }
}

module WolCode {
  import opened Types
  import opened Hosts
  import opened Ipv4
  import opened WolSpec
  import WolEffects

  datatype Datagram = Datagram(local: Bytes, remote: Bytes, port: nat, packet: Bytes)

  const DISCARD_PORT := 9

  ghost predicate Distinct(cs: seq<Candidate>) {
    forall i, j :: 0 <= i < j < |cs| ==> cs[i] != cs[j]
  }

  /** The duplicate scan compares interface, address and prefix. */
  method AddCandidate(candidates: seq<Candidate>, c: Candidate) returns (r: seq<Candidate>)
    requires Distinct(candidates) && WellFormed(c) && forall d :: d in candidates ==> WellFormed(d)
    ensures Distinct(r) && forall d :: d in r <==> d in candidates || d == c
  {
    var duplicate := false;
    for i := 0 to |candidates|
      invariant !duplicate ==> c !in candidates[..i]
      invariant duplicate ==> c in candidates
    {
      var existing := candidates[i];
      assert candidates[..i + 1] == candidates[..i] + [existing];
      if existing.iface == c.iface && existing.ip == c.ip && existing.prefix == c.prefix {
        assert existing in candidates;
        duplicate := true;
        break;
      }
    }
    r := if duplicate then candidates else candidates + [c];
  }

  lemma OffersOneMore(iface: int, addrs: seq<Address>, j: nat, c: Candidate)
    requires j < |addrs|
    ensures OffersIn(iface, addrs[..j + 1], c) <==>
      (OffersIn(iface, addrs[..j], c) || CandidateOf(iface, addrs[j]) == Some(c))
  {
    assert addrs[..j + 1][j] == addrs[j];
    if OffersIn(iface, addrs[..j], c) {
      var k :| 0 <= k < j && CandidateOf(iface, addrs[..j][k]) == Some(c);
      assert addrs[..j + 1][k] == addrs[..j][k];
    }
    if OffersIn(iface, addrs[..j + 1], c) {
      var k :| 0 <= k < j + 1 && CandidateOf(iface, addrs[..j + 1][k]) == Some(c);
      assert k < j ==> addrs[..j][k] == addrs[..j + 1][k];
    }
  }

  lemma OffersMore(iface: int, addrs: seq<Address>, j: nat)
    requires j < |addrs|
    ensures forall c :: OffersIn(iface, addrs[..j + 1], c) <==>
      (OffersIn(iface, addrs[..j], c) || CandidateOf(iface, addrs[j]) == Some(c))
  {
    forall c ensures OffersIn(iface, addrs[..j + 1], c) <==>
      (OffersIn(iface, addrs[..j], c) || CandidateOf(iface, addrs[j]) == Some(c))
    {
      OffersOneMore(iface, addrs, j, c);
    }
  }

  lemma EligibleInMore(h: Host, lower: string -> string, fs: seq<Interface>, i: nat, c: Candidate)
    requires i < |fs|
    requires Eligible(h, lower, fs[..i], c) || (Considered(h, lower, fs[i]) && Offers(fs[i], c))
    ensures Eligible(h, lower, fs[..i + 1], c)
  {
    assert fs[..i + 1][i] == fs[i];
    if Eligible(h, lower, fs[..i], c) {
      var k :| 0 <= k < i && Considered(h, lower, fs[..i][k]) && Offers(fs[..i][k], c);
      assert fs[..i + 1][k] == fs[..i][k];
    }
  }

  lemma EligibleInFewer(h: Host, lower: string -> string, fs: seq<Interface>, i: nat, c: Candidate)
    requires i < |fs| && Eligible(h, lower, fs[..i + 1], c)
    ensures Eligible(h, lower, fs[..i], c) || (Considered(h, lower, fs[i]) && Offers(fs[i], c))
  {
    var k :| 0 <= k < i + 1 && Considered(h, lower, fs[..i + 1][k]) && Offers(fs[..i + 1][k], c);
    assert fs[..i + 1][i] == fs[i];
    assert k < i ==> fs[..i][k] == fs[..i + 1][k];
  }

  lemma EligibleMore(h: Host, lower: string -> string, fs: seq<Interface>, i: nat)
    requires i < |fs|
    ensures forall c :: Eligible(h, lower, fs[..i + 1], c) <==>
      (Eligible(h, lower, fs[..i], c) || (Considered(h, lower, fs[i]) && Offers(fs[i], c)))
  {
    forall c ensures Eligible(h, lower, fs[..i + 1], c) <==>
      (Eligible(h, lower, fs[..i], c) || (Considered(h, lower, fs[i]) && Offers(fs[i], c)))
    {
      if Eligible(h, lower, fs[..i + 1], c) {
        EligibleInFewer(h, lower, fs, i, c);
      }
      if Eligible(h, lower, fs[..i], c) || (Considered(h, lower, fs[i]) && Offers(fs[i], c)) {
        EligibleInMore(h, lower, fs, i, c);
      }
    }
  }

  /** The candidates of one interface, added to those of the interfaces before it. */
  method AddInterface(candidates: seq<Candidate>, f: Interface) returns (r: seq<Candidate>)
    requires f.addrs.Some?
    requires Distinct(candidates) && forall d :: d in candidates ==> WellFormed(d)
    ensures Distinct(r) && forall d :: d in r ==> WellFormed(d)
    ensures forall c :: c in r <==> c in candidates || Offers(f, c)
  {
    r := candidates;
    var addrs := f.addrs.value;
    for j := 0 to |addrs|
      invariant Distinct(r) && forall d :: d in r ==> WellFormed(d)
      invariant forall c :: c in r <==> c in candidates || OffersIn(f.index, addrs[..j], c)
    {
      OffersMore(f.index, addrs, j);
      var c := CandidateOf(f.index, addrs[j]);
      if c.Some? { r := AddCandidate(r, c.value); }
    }
    assert addrs[..|addrs|] == addrs;
  }

  method IsSkipped(net: Network, name: string, skips: seq<string>) returns (skipped: bool)
    ensures skipped == SkippedBy(net.lower, name, skips)
  {
    skipped := false;
    for i := 0 to |skips|
      invariant !skipped && forall k :: 0 <= k < i ==> skips[k] == "" || !ContainsText(net.lower(name), net.lower(skips[k]))
    {
      if skips[i] != "" && ContainsText(net.lower(name), net.lower(skips[i])) {
        return true;
      }
    }
  }

  /** One turn of the loop over the interfaces. */
  method VisitInterface(h: Host, net: Network, f: Interface, candidates: seq<Candidate>)
      returns (r: Result<seq<Candidate>, WolError>)
    requires Distinct(candidates) && forall d :: d in candidates ==> WellFormed(d)
    ensures r.Err? <==> Considered(h, net.lower, f) && f.addrs.None?
    ensures r.Err? ==> r.error == EnumerateAddresses(f.name)
    ensures r.Ok? ==> Distinct(r.value) && forall d :: d in r.value ==> WellFormed(d)
    ensures r.Ok? ==> forall c ::
      (c in r.value <==> c in candidates || (Considered(h, net.lower, f) && Offers(f, c)))
  {
    r := Ok(candidates);
    if h.wolInterface != "" && f.name != h.wolInterface { return; }
    var skipped := IsSkipped(net, f.name, h.skipInterfaces);
    if skipped || !f.up || f.loopback || !f.broadcast { return; }
    if f.addrs.None? { return Err(EnumerateAddresses(f.name)); }
    var added := AddInterface(candidates, f);
    r := Ok(added);
  }

  method CollectCandidates(h: Host, net: Network, fs: seq<Interface>) returns (r: Result<seq<Candidate>, WolError>)
    ensures var failure := FirstFailure(h, net.lower, fs);
      r.Err? ==> failure.Some? && r.error == EnumerateAddresses(failure.value)
    ensures r.Ok? ==> FirstFailure(h, net.lower, fs).None? && Distinct(r.value)
    ensures r.Ok? ==> forall c :: c in r.value <==> Eligible(h, net.lower, fs, c)
    ensures r.Ok? ==> forall c :: c in r.value ==> WellFormed(c)
  {
    var candidates: seq<Candidate> := [];
    for i := 0 to |fs|
      invariant Distinct(candidates) && forall c :: c in candidates ==> WellFormed(c)
      invariant FirstFailure(h, net.lower, fs[i..]) == FirstFailure(h, net.lower, fs)
      invariant forall c :: c in candidates <==> Eligible(h, net.lower, fs[..i], c)
    {
      EligibleMore(h, net.lower, fs, i);
      assert fs[i..][1..] == fs[i + 1..];
      var visited := VisitInterface(h, net, fs[i], candidates);
      if visited.Err? { return Err(visited.error); }
      candidates := visited.value;
    }
    assert fs[..|fs|] == fs;
    r := Ok(candidates);
  }

  method MatchesAny(c: Candidate, ips: seq<Bytes>) returns (found: bool)
    requires WellFormed(c)
    ensures found == Matches(c, ips)
  {
    for i := 0 to |ips|
      invariant forall k :: 0 <= k < i ==> !Contains(c, ips[k])
    {
      if |To4(ips[i])| == 4 && Contains(c, ips[i]) { return true; }
    }
    found := false;
  }

  /** `matching` are the matching candidates among `cs` of prefix `best`, the longest. */
  ghost predicate BestSoFar(cs: seq<Candidate>, ips: seq<Bytes>, best: int, matching: seq<Candidate>) {
    && best >= -1 && (best == -1 <==> matching == [])
    && Distinct(matching)
    && (forall c :: c in cs && Matches(c, ips) ==> c.prefix <= best)
    && (forall c :: c in matching <==> c in cs && Matches(c, ips) && c.prefix == best)
  }

  /** The one-pass search for the longest matching prefix. */
  method LongestMatches(candidates: seq<Candidate>, ips: seq<Bytes>) returns (matching: seq<Candidate>)
    requires Distinct(candidates) && forall c :: c in candidates ==> WellFormed(c)
    ensures Distinct(matching)
    ensures forall c :: c in matching <==> c in BestIn(Elements(candidates), ips)
  {
    matching := [];
    var best := -1;
    for i := 0 to |candidates|
      invariant BestSoFar(candidates[..i], ips, best, matching)
    {
      best, matching := Weigh(candidates, i, ips, best, matching);
    }
    assert candidates[..|candidates|] == candidates;
    assert matching != [] ==> matching[0] in matching;
  }

  /** One turn of that loop. */
  method Weigh(candidates: seq<Candidate>, i: nat, ips: seq<Bytes>, best: int, matching: seq<Candidate>)
      returns (best': int, matching': seq<Candidate>)
    requires i < |candidates| && Distinct(candidates) && WellFormed(candidates[i])
    requires BestSoFar(candidates[..i], ips, best, matching)
    ensures BestSoFar(candidates[..i + 1], ips, best', matching')
  {
    best', matching' := best, matching;
    var c := candidates[i];
    assert candidates[..i + 1] == candidates[..i] + [c];
    var found := MatchesAny(c, ips);
    if found {
      if c.prefix > best {
        matching' := [];
        best' := c.prefix;
      }
      if c.prefix == best' {
        matching' := matching' + [c];
      }
    }
  }

  ghost function Elements(cs: seq<Candidate>): set<Candidate> {
    set c | c in cs
  }

  lemma {:induction false} DistinctSize(cs: seq<Candidate>)
    requires Distinct(cs)
    ensures |Elements(cs)| == |cs|
  {
    if cs != [] {
      var n := |cs| - 1;
      DistinctSize(cs[..n]);
      assert Elements(cs) == Elements(cs[..n]) + {cs[n]} by {
        assert cs == cs[..n] + [cs[n]];
      }
      assert cs[n] !in Elements(cs[..n]);
    }
  }

  method Single(pool: seq<Candidate>) returns (r: Result<Candidate, WolError>)
    requires Distinct(pool)
    ensures r == Only(Elements(pool))
  {
    DistinctSize(pool);
    if |pool| == 0 { return Err(NoMatchingNetwork); }
    assert pool[0] in Elements(pool);
    if |pool| != 1 { return Err(AmbiguousNetworks); }
    assert Elements(pool) == {pool[0]};
    r := Ok(pool[0]);
  }

  /** `selectWolNetwork` up to the broadcast address. */
  method SelectCandidate(h: Host, net: Network) returns (r: Result<Candidate, WolError>)
    ensures r == Selected(h, net)
    ensures r.Ok? ==> WellFormed(r.value)
    ensures r.Ok? ==>
      net.interfaces.Some? && WolEffects.Offered(h, net.lower, net.interfaces.value, r.value)
  {
    if net.interfaces.None? { return Err(EnumerateInterfaces); }
    var collected := CollectCandidates(h, net, net.interfaces.value);
    if collected.Err? { return Err(collected.error); }
    var candidates := collected.value;
    ghost var e := EligibleSet(h, net.lower, net.interfaces.value);
    assert Elements(candidates) == e by {
      forall c ensures c in Elements(candidates) <==> c in e {
        EligibleSetIsEligible(h, net.lower, net.interfaces.value, c);
      }
    }
    DistinctSize(candidates);
    if |candidates| == 0 {
      assert e == {};
      return Err(NoEligibleNetwork);
    }
    assert candidates[0] in e;
    r := Choose(h, net, candidates);
    if r.Ok? { WolEffects.SelectedIsOffered(h, net, r.value); }
  }

  method Choose(h: Host, net: Network, candidates: seq<Candidate>) returns (r: Result<Candidate, WolError>)
    requires Distinct(candidates) && candidates != [] && forall c :: c in candidates ==> WellFormed(c)
    ensures r == Chosen(h, net, Elements(candidates))
    ensures r.Ok? ==> r.value in candidates
  {
    DistinctSize(candidates);
    assert candidates[0] in Elements(candidates);
    var pool := candidates;
    if h.ip != "" && !(h.wolInterface != "" && |candidates| == 1) {
      var resolved := net.parseIp(h.ip);
      var ips: seq<Bytes>;
      if resolved.Some? {
        ips := [resolved.value];
      } else {
        var found := net.lookup(h.ip);
        if found.None? { return Err(ResolveTarget); }
        ips := found.value;
      }
      pool := LongestMatches(candidates, ips);
      assert Elements(pool) == BestIn(Elements(candidates), ips);
    }
    r := Single(pool);
  }

  /** The loop that fills the broadcast address byte by byte. */
  method FillBroadcast(selected: Candidate) returns (broadcast: array<Byte>)
    requires |selected.ip| == |selected.mask| == 4
    ensures fresh(broadcast) && broadcast[..] == BroadcastOf(selected)
  {
    broadcast := new Byte[4](_ => 0);
    for i := 0 to broadcast.Length
      invariant forall k :: 0 <= k < i ==> broadcast[k] == Or(selected.ip[k], Not(selected.mask[k]))
    {
      broadcast[i] := Or(selected.ip[i], Not(selected.mask[i]));
    }
  }

  /** The loops that fill the packet. */
  method FillPacket(mac: Bytes) returns (packet: array<Byte>)
    requires |mac| == 6
    ensures fresh(packet) && IsMagicPacket(packet[..], mac)
  {
    packet := new Byte[102](_ => 0);
    for i := 0 to 6
      invariant forall k :: 0 <= k < i ==> packet[k] == 255
    {
      packet[i] := 255;
    }
    for i := 0 to 16
      invariant forall k :: 0 <= k < 6 ==> packet[k] == 255
      invariant forall k :: 6 <= k < 6 + 6 * i ==> packet[k] == mac[(k - 6) % 6]
    {
      for j := 0 to 6
        invariant forall k :: 0 <= k < 6 ==> packet[k] == 255
        invariant forall k :: 6 <= k < 6 + 6 * i + j ==> packet[k] == mac[(k - 6) % 6]
      {
        packet[6 + 6 * i + j] := mac[j];
      }
    }
  }

  /** `sendWol`; `sends` says whether the system takes the datagram. */
  method SendWol(h: Host, net: Network, sends: bool) returns (sent: Option<Datagram>, r: Result<(), WolError>)
    ensures net.parseMac(h.mac).None? ==> r == Err(InvalidMac)
    ensures net.parseMac(h.mac).Some? && |net.parseMac(h.mac).value| != 6 ==> r == Err(MacNotSixBytes)
    ensures sent.Some? ==> r == if sends then Ok(()) else Err(SendFailed)
    ensures r.Ok? ==> sent.Some?
    ensures sent.Some? <==>
      net.parseMac(h.mac).Some? && |net.parseMac(h.mac).value| == 6 && Selected(h, net).Ok?
    ensures sent.Some? ==> var c := Selected(h, net).value;
      && WellFormed(c)
      && sent.value.local == c.ip && sent.value.remote == BroadcastOf(c) && sent.value.port == 9
      && IsMagicPacket(sent.value.packet, net.parseMac(h.mac).value)
    ensures sent.Some? ==> exists c :: WolEffects.GoesThrough(h, net, sent.value.local, sent.value.remote, c)
    ensures net.parseMac(h.mac).Some? && |net.parseMac(h.mac).value| == 6 && Selected(h, net).Err? ==>
      r == Err(Selected(h, net).error)
  {
    sent := None;
    var mac := net.parseMac(h.mac);
    if mac.None? { return None, Err(InvalidMac); }
    if |mac.value| != 6 { return None, Err(MacNotSixBytes); }
    var selected := SelectCandidate(h, net);
    if selected.Err? { return None, Err(selected.error); }
    WolEffects.BroadcastGoesThrough(h, net, selected.value);
    var remote := FillBroadcast(selected.value);
    var packet := FillPacket(mac.value);
    sent := Some(Datagram(selected.value.ip, remote[..], DISCARD_PORT, packet[..]));
    r := if sends then Ok(()) else Err(SendFailed);
  }
}
