/** What hosts.yaml may say: backend/internal/config/hosts.go and model.go. A `string`
    here is the sequence of the string's bytes. */
module HostsFile {
  import opened Types
  import opened Hosts

  const MAX_DEVICE_ID_LENGTH := 64

  predicate LetterOrDigit(c: char) {
    'a' <= c <= 'z' || 'A' <= c <= 'Z' || '0' <= c <= '9'
  }

  // ----------------------------------------------------------------- device ids

  datatype IdError = IdRequired | IdTooLong | IdCharacters

  predicate ValidDeviceId(id: string) {
    && 1 <= |id| <= MAX_DEVICE_ID_LENGTH
    && LetterOrDigit(id[0])
    && forall i :: 0 <= i < |id| ==> LetterOrDigit(id[i]) || id[i] in {'.', '_', '-'}
  }

  function IdErrorOf(id: string): Option<IdError> {
    if id == "" then Some(IdRequired)
    else if |id| > MAX_DEVICE_ID_LENGTH then Some(IdTooLong)
    else if !ValidDeviceId(id) then Some(IdCharacters)
    else None
  }

  method ValidateDeviceId(id: string) returns (r: Option<IdError>)
    ensures r == IdErrorOf(id)
    ensures r.None? <==> ValidDeviceId(id)
    ensures r.None? <==>
      && 1 <= |id| <= 64
      && ('a' <= id[0] <= 'z' || 'A' <= id[0] <= 'Z' || '0' <= id[0] <= '9')
      && forall i :: 0 <= i < |id| ==>
           || 'a' <= id[i] <= 'z' || 'A' <= id[i] <= 'Z' || '0' <= id[i] <= '9'
           || id[i] == '.' || id[i] == '_' || id[i] == '-'
    ensures (r == Some(IdRequired) <==> id == "") && (r == Some(IdTooLong) <==> |id| > 64)
  {
    if id == "" { return Some(IdRequired); }
    if |id| > MAX_DEVICE_ID_LENGTH { return Some(IdTooLong); }
    for i := 0 to |id|
      invariant i > 0 ==> LetterOrDigit(id[0])
      invariant forall k :: 0 <= k < i ==> LetterOrDigit(id[k]) || id[k] in {'.', '_', '-'}
    {
      var c := id[i];
      if (i == 0 && !LetterOrDigit(c)) || (i > 0 && !LetterOrDigit(c) && c != '.' && c != '_' && c != '-') {
        return Some(IdCharacters);
      }
    }
    r := None;
  }

  // ------------------------------------------------------------------ addresses

  /** `strings.Split(s, ".")`. */
  function Split(s: string): (labels: seq<string>)
    ensures labels != []
    decreases |s|
  {
    if s == "" then [""]
    else if s[0] == '.' then [""] + Split(s[1..])
    else
      var rest := Split(s[1..]);
      [[s[0]] + rest[0]] + rest[1..]
  }

  function Join(labels: seq<string>): string
    requires labels != []
  {
    if |labels| == 1 then labels[0] else labels[0] + "." + Join(labels[1..])
  }

  predicate ValidLabel(part: string) {
    && 1 <= |part| <= 63
    && part[0] != '-' && part[|part| - 1] != '-'
    && forall i :: 0 <= i < |part| ==> LetterOrDigit(part[i]) || part[i] == '-'
  }

  predicate Numeric(s: string) {
    forall i :: 0 <= i < |s| ==> '0' <= s[i] <= '9' || s[i] == '.'
  }

  predicate ValidHostname(s: string) {
    !Numeric(s) && |s| <= 253 && forall l :: l in Split(s) ==> ValidLabel(l)
  }

  lemma {:induction false} SplitEndsWithDot(s: string)
    requires s != "" && s[|s| - 1] == '.'
    ensures "" in Split(s)
    decreases |s|
  {
    if s[0] != '.' {
      SplitEndsWithDot(s[1..]);
      var rest := Split(s[1..]);
      SplitFirst(s[1..]);
      var k :| 0 <= k < |rest| && rest[k] == "";
      if k > 0 {
        assert Split(s)[k] == rest[k];
      } else {
        assert s[1] == '.';
        assert rest[1..] == Split(s[2..]) && s[1..][1..] == s[2..];
        if |s| == 2 {
          assert Split(s[2..]) == [""];
          assert Split(s)[1] == "";
        } else {
          SplitEndsWithDot(s[2..]);
          var j :| 0 <= j < |Split(s[2..])| && Split(s[2..])[j] == "";
          assert Split(s)[j + 1] == "";
        }
      }
    }
  }

  /** The first part is empty only before a dot or at the end. */
  lemma SplitFirst(s: string)
    ensures Split(s)[0] == "" <==> s == "" || s[0] == '.'
  {
  }

  method AllNumeric(address: string) returns (numeric: bool)
    ensures numeric == Numeric(address)
  {
    for i := 0 to |address|
      invariant Numeric(address[..i])
    {
      if (address[i] < '0' || address[i] > '9') && address[i] != '.' { return false; }
    }
    assert address[..|address|] == address;
    numeric := true;
  }

  method CheckLabel(part: string) returns (ok: bool)
    ensures ok == ValidLabel(part)
  {
    if |part| == 0 || |part| > 63 || part[0] == '-' || part[|part| - 1] == '-' { return false; }
    for i := 0 to |part|
      invariant forall k :: 0 <= k < i ==> LetterOrDigit(part[k]) || part[k] == '-'
    {
      if !LetterOrDigit(part[i]) && part[i] != '-' { return false; }
    }
    ok := true;
  }

  /** `validHostAddress`; `isIp` is `net.ParseIP(_) != nil`. */
  method ValidHostAddress(isIp: string -> bool, address: string) returns (ok: bool)
    ensures ok == ValidAddress(isIp, address)
  {
    if isIp(address) { return true; }
    var numeric := AllNumeric(address);
    if numeric { return false; }
    if |address| > 253 { return false; }
    if address != "" && address[|address| - 1] == '.' {
      SplitEndsWithDot(address);
      return false;
    }
    var labels := Split(address);
    for i := 0 to |labels|
      invariant forall l :: l in labels[..i] ==> ValidLabel(l)
    {
      assert labels[..i + 1] == labels[..i] + [labels[i]];
      var valid := CheckLabel(labels[i]);
      if !valid { return false; }
    }
    assert labels[..|labels|] == labels;
    ok := true;
  }

  predicate ValidAddress(isIp: string -> bool, address: string) {
    isIp(address) || ValidHostname(address)
  }

  predicate DotFree(s: string) {
    forall i :: 0 <= i < |s| ==> s[i] != '.'
  }

  lemma {:induction false} SplitOfJoin(labels: seq<string>)
    requires labels != [] && forall l :: l in labels ==> DotFree(l)
    ensures Split(Join(labels)) == labels
    decreases |labels|, |labels[0]|
  {
    var first := labels[0];
    if first == "" {
      if |labels| > 1 {
        assert Join(labels) == "." + Join(labels[1..]);
        SplitOfJoin(labels[1..]);
        assert Join(labels)[1..] == Join(labels[1..]);
      }
    } else {
      var shorter := [first[1..]] + labels[1..];
      assert DotFree(first);
      assert forall l :: l in shorter ==> l == first[1..] || l in labels;
      assert Join(labels) == [first[0]] + Join(shorter) by {
        if |labels| > 1 { assert shorter[1..] == labels[1..]; }
      }
      assert Join(labels)[1..] == Join(shorter) && Join(labels)[0] == first[0];
      SplitOfJoin(shorter);
      assert [first[0]] + first[1..] == first && shorter[1..] == labels[1..];
      assert Split(Join(labels)) == [[first[0]] + shorter[0]] + shorter[1..];
      assert [first] + labels[1..] == labels;
    }
  }

  lemma {:induction false} JoinOfSplit(s: string)
    ensures Join(Split(s)) == s
    decreases |s|
  {
    if s != "" {
      JoinOfSplit(s[1..]);
      var rest := Split(s[1..]);
      if s[0] == '.' {
        assert Split(s)[1..] == rest;
      } else {
        assert Split(s)[1..] == rest[1..];
      }
    }
  }

  /** A hostname is valid exactly if it is some valid labels joined by dots, is not
      all digits and dots, and has at most 253 bytes. */
  lemma HostnamesAreJoinedLabels(s: string)
    ensures ValidHostname(s) <==>
      (!Numeric(s) && |s| <= 253
       && exists labels :: labels != [] && Join(labels) == s && forall l :: l in labels ==> ValidLabel(l))
  {
    JoinOfSplit(s);
    if labels :| labels != [] && Join(labels) == s && forall l :: l in labels ==> ValidLabel(l) {
      forall l | l in labels ensures DotFree(l) {
        assert ValidLabel(l);
      }
      SplitOfJoin(labels);
    }
  }

  /** A part of a hostname: one to 63 letters, digits and hyphens, no hyphen at either end. */
  predicate IsPart(p: string) {
    && 1 <= |p| <= 63 && p[0] != '-' && p[|p| - 1] != '-'
    && forall i :: 0 <= i < |p| ==>
         'a' <= p[i] <= 'z' || 'A' <= p[i] <= 'Z' || '0' <= p[i] <= '9' || p[i] == '-'
  }

  /** The text is one of those parts with dots between them. */
  ghost predicate IsDotted(s: string, parts: seq<string>)
    decreases |parts|
  {
    parts != [] &&
    if |parts| == 1 then s == parts[0]
    else |s| > |parts[0]| && s[..|parts[0]|] == parts[0] && s[|parts[0]|] == '.' && IsDotted(s[|parts[0]| + 1..], parts[1..])
  }

  lemma {:induction false} DottedIsJoined(s: string, parts: seq<string>)
    requires parts != []
    ensures IsDotted(s, parts) <==> s == Join(parts)
    decreases |parts|
  {
    if |parts| > 1 {
      var n := |parts[0]|;
      CutsAt(s, parts[0], Join(parts[1..]));
      if |s| > n { DottedIsJoined(s[n + 1..], parts[1..]); }
    }
  }

  lemma CutsAt(s: string, a: string, rest: string)
    ensures s == a + "." + rest <==> |s| > |a| && s[..|a|] == a && s[|a|] == '.' && s[|a| + 1..] == rest
  {
    if |s| > |a| { assert s == s[..|a|] + [s[|a|]] + s[|a| + 1..]; }
  }

  /** A host address is accepted exactly if it is an IP address, or has at most 253 bytes,
      something other than digits and dots, and consists of parts joined by dots. */
  lemma AddressesSpelledOut(isIp: string -> bool, s: string)
    ensures ValidAddress(isIp, s) <==>
      isIp(s) ||
      (&& |s| <= 253 && (exists i :: 0 <= i < |s| && s[i] != '.' && !('0' <= s[i] <= '9'))
       && exists parts :: IsDotted(s, parts) && forall p :: p in parts ==> IsPart(p))
  {
    HostnamesAreJoinedLabels(s);
    assert forall p :: ValidLabel(p) <==> IsPart(p);
    if ValidHostname(s) {
      var parts :| parts != [] && Join(parts) == s && forall l :: l in parts ==> ValidLabel(l);
      DottedIsJoined(s, parts);
      assert IsDotted(s, parts) && forall p :: p in parts ==> IsPart(p);
    }
    if parts :| IsDotted(s, parts) && forall p :: p in parts ==> IsPart(p) {
      DottedIsJoined(s, parts);
      assert forall l :: l in parts ==> ValidLabel(l);
      assert parts != [] && Join(parts) == s;
    }
  }

  // -------------------------------------------------------------------- the list

  /** A file's contents, as the YAML decoder finds them. */
  datatype Document =
    | Blank
    | Undecodable
    | NullDocument
    | MoreThanOne
    | ListOf(hosts: seq<Host>)

  datatype ParseError =
    | EmptyFile
    | DecodeFailed
    | NotAList
    | MultipleDocuments
    | InvalidId(id: string, why: IdError)
    | DuplicateId(id: string)
    | NameRequired(id: string)
    | InvalidMac(id: string)
    | InvalidAddress(id: string)
    | NegativeInterval(id: string)
    | TwoCredentials(id: string)

  /** Library functions: is a name blank after trimming; the length of a MAC address,
      if it parses; is a text an IP address; and the two paths of hosts.yaml for a
      working directory. */
  datatype Library = Library(
    isBlank: string -> bool,
    macLength: string -> Option<nat>,
    isIp: string -> bool,
    primaryPath: string -> string,
    fallbackPath: string -> string)

  predicate ValidHost(lib: Library, h: Host) {
    && ValidDeviceId(h.id)
    && !lib.isBlank(h.name)
    && lib.macLength(h.mac) == Some(6)
    && (h.ip != "" ==> ValidAddress(lib.isIp, h.ip))
    && h.pingInterval >= 0
    && (h.keyPath == "" || h.passwordFile == "")
  }

  /** The full validity of a list of hosts. */
  ghost predicate ValidList(lib: Library, hosts: seq<Host>) {
    UniqueIds(hosts) && forall i :: 0 <= i < |hosts| ==> ValidHost(lib, hosts[i])
  }

  /** The first objection to a host, in the order of the checks. */
  function Objection(lib: Library, h: Host, seen: set<string>): Option<ParseError> {
    if IdErrorOf(h.id).Some? then Some(InvalidId(h.id, IdErrorOf(h.id).value))
    else if h.id in seen then Some(DuplicateId(h.id))
    else if lib.isBlank(h.name) then Some(NameRequired(h.id))
    else if lib.macLength(h.mac) != Some(6) then Some(InvalidMac(h.id))
    else if h.ip != "" && !ValidAddress(lib.isIp, h.ip) then Some(InvalidAddress(h.id))
    else if h.pingInterval < 0 then Some(NegativeInterval(h.id))
    else if h.keyPath != "" && h.passwordFile != "" then Some(TwoCredentials(h.id))
    else None
  }

  function FirstObjection(lib: Library, hosts: seq<Host>, seen: set<string>): Option<ParseError> {
    if hosts == [] then None
    else
      var here := Objection(lib, hosts[0], seen);
      if here.Some? then here else FirstObjection(lib, hosts[1..], seen + {hosts[0].id})
  }

  function Parsed(lib: Library, doc: Document): Result<seq<Host>, ParseError> {
    match doc
    case Blank => Err(EmptyFile)
    case Undecodable => Err(DecodeFailed)
    case NullDocument => Err(NotAList)
    case MoreThanOne => Err(MultipleDocuments)
    case ListOf(hosts) =>
      match FirstObjection(lib, hosts, {})
      case Some(e) => Err(e)
      case None => Ok(hosts)
  }

  method CheckHost(lib: Library, h: Host, seen: set<string>) returns (r: Option<ParseError>)
    ensures r == Objection(lib, h, seen)
  {
    var id := ValidateDeviceId(h.id);
    if id.Some? { return Some(InvalidId(h.id, id.value)); }
    if h.id in seen { return Some(DuplicateId(h.id)); }
    if lib.isBlank(h.name) { return Some(NameRequired(h.id)); }
    var mac := lib.macLength(h.mac);
    if mac.None? || mac.value != 6 { return Some(InvalidMac(h.id)); }
    if h.ip != "" {
      var ok := ValidHostAddress(lib.isIp, h.ip);
      if !ok { return Some(InvalidAddress(h.id)); }
    }
    if h.pingInterval < 0 { return Some(NegativeInterval(h.id)); }
    if h.keyPath != "" && h.passwordFile != "" { return Some(TwoCredentials(h.id)); }
    r := None;
  }

  method ParseHosts(lib: Library, doc: Document) returns (r: Result<seq<Host>, ParseError>)
    ensures r == Parsed(lib, doc)
  {
    match doc {
      case Blank => return Err(EmptyFile);
      case Undecodable => return Err(DecodeFailed);
      case NullDocument => return Err(NotAList);
      case MoreThanOne => return Err(MultipleDocuments);
      case ListOf(hosts) =>
        var seen := {};
        for i := 0 to |hosts|
          invariant FirstObjection(lib, hosts[i..], seen) == FirstObjection(lib, hosts, {})
        {
          var objection := CheckHost(lib, hosts[i], seen);
          if objection.Some? { return Err(objection.value); }
          seen := seen + {hosts[i].id};
          assert hosts[i..][1..] == hosts[i + 1..];
        }
        return Ok(hosts);
    }
  }

  lemma {:induction false} NoObjectionIsValid(lib: Library, hosts: seq<Host>, seen: set<string>)
    ensures FirstObjection(lib, hosts, seen).None?
      <==> ValidList(lib, hosts) && forall i :: 0 <= i < |hosts| ==> hosts[i].id !in seen
  {
    if hosts != [] {
      var rest, more := hosts[1..], seen + {hosts[0].id};
      NoObjectionIsValid(lib, rest, more);
      assert forall i :: 0 <= i < |rest| ==> rest[i] == hosts[i + 1];
      if FirstObjection(lib, hosts, seen).None? {
        forall i, j | 0 <= i < j < |hosts| ensures hosts[i].id != hosts[j].id {
          assert hosts[j] == rest[j - 1];
          if i > 0 { assert hosts[i] == rest[i - 1]; }
        }
        forall i | 0 <= i < |hosts| ensures ValidHost(lib, hosts[i]) && hosts[i].id !in seen {
          if i > 0 { assert hosts[i] == rest[i - 1]; }
        }
      }
      if ValidList(lib, hosts) && forall i :: 0 <= i < |hosts| ==> hosts[i].id !in seen {
        assert ValidHost(lib, hosts[0]) && hosts[0].id !in seen;
        forall i | 0 <= i < |rest| ensures ValidHost(lib, rest[i]) && rest[i].id !in more {
          assert rest[i] == hosts[i + 1] && hosts[0].id != hosts[i + 1].id;
        }
        forall i, j | 0 <= i < j < |rest| ensures rest[i].id != rest[j].id {
          assert rest[i] == hosts[i + 1] && rest[j] == hosts[j + 1];
        }
      }
    }
  }

  /** A file is accepted exactly if it is one list of hosts, all valid and with
      unique ids; and the list is returned as it stands. */
  lemma AcceptsExactlyValidLists(lib: Library, doc: Document)
    ensures Parsed(lib, doc).Ok? <==> doc.ListOf? && ValidList(lib, doc.hosts)
    ensures Parsed(lib, doc).Ok? ==> Parsed(lib, doc).value == doc.hosts
  {
    if doc.ListOf? { NoObjectionIsValid(lib, doc.hosts, {}); }
  }

  /** Acceptance in terms of the fields of the hosts. */
  lemma AcceptedListsSpelledOut(lib: Library, hosts: seq<Host>)
    ensures Parsed(lib, ListOf(hosts)).Ok? <==>
      && (forall i, j :: 0 <= i < j < |hosts| ==> hosts[i].id != hosts[j].id)
      && forall i :: 0 <= i < |hosts| ==>
           && IdErrorOf(hosts[i].id).None? && !lib.isBlank(hosts[i].name)
           && lib.macLength(hosts[i].mac) == Some(6)
           && (hosts[i].ip == "" || ValidAddress(lib.isIp, hosts[i].ip))
           && hosts[i].pingInterval >= 0
           && (hosts[i].keyPath == "" || hosts[i].passwordFile == "")
  {
    AcceptsExactlyValidLists(lib, ListOf(hosts));
    if Parsed(lib, ListOf(hosts)).Ok? {
      assert forall i :: 0 <= i < |hosts| ==> ValidHost(lib, hosts[i]);
    }
  }

  /** Each objection to a host says what is wrong with it, and that all that is checked
      before is in order. */
  lemma ObjectionsSayWhy(lib: Library, h: Host, seen: set<string>)
    ensures var named := IdErrorOf(h.id).None? && h.id !in seen && !lib.isBlank(h.name);
      var wired := named && lib.macLength(h.mac) == Some(6);
      var placed := wired && (h.ip == "" || ValidAddress(lib.isIp, h.ip));
      match Objection(lib, h, seen)
      case None => placed && h.pingInterval >= 0 && (h.keyPath == "" || h.passwordFile == "")
      case Some(InvalidId(id, why)) => id == h.id && IdErrorOf(h.id) == Some(why)
      case Some(DuplicateId(id)) => id == h.id && IdErrorOf(h.id).None? && h.id in seen
      case Some(NameRequired(id)) => id == h.id && IdErrorOf(h.id).None? && h.id !in seen && lib.isBlank(h.name)
      case Some(InvalidMac(id)) => id == h.id && named && lib.macLength(h.mac) != Some(6)
      case Some(InvalidAddress(id)) => id == h.id && wired && h.ip != "" && !ValidAddress(lib.isIp, h.ip)
      case Some(NegativeInterval(id)) => id == h.id && placed && h.pingInterval < 0
      case Some(TwoCredentials(id)) => id == h.id && placed && h.pingInterval >= 0 && h.keyPath != "" && h.passwordFile != ""
      case Some(_) => false
  {
  }

  function IdsOf(hosts: seq<Host>): set<string> {
    set h | h in hosts :: h.id
  }

  lemma IdsOfMore(hosts: seq<Host>, i: nat)
    requires i < |hosts|
    ensures IdsOf(hosts[..i + 1]) == IdsOf(hosts[..i]) + {hosts[i].id}
  {
    assert hosts[..i + 1] == hosts[..i] + [hosts[i]];
    assert forall h :: h in hosts[..i + 1] <==> h in hosts[..i] || h == hosts[i];
  }

  lemma {:induction false} FirstObjectionFrom(lib: Library, hosts: seq<Host>, i: nat) returns (k: nat)
    requires i <= |hosts| && FirstObjection(lib, hosts[i..], IdsOf(hosts[..i])).Some?
    ensures i <= k < |hosts|
    ensures FirstObjection(lib, hosts[i..], IdsOf(hosts[..i])) == Objection(lib, hosts[k], IdsOf(hosts[..k]))
    ensures forall j :: i <= j < k ==> Objection(lib, hosts[j], IdsOf(hosts[..j])).None?
    decreases |hosts| - i
  {
    if Objection(lib, hosts[i], IdsOf(hosts[..i])).Some? {
      k := i;
    } else {
      IdsOfMore(hosts, i);
      assert hosts[i..][1..] == hosts[i + 1..];
      k := FirstObjectionFrom(lib, hosts, i + 1);
    }
  }

  /** A rejected list is rejected for its first host that there is an objection to. */
  lemma FirstObjectionIsFirst(lib: Library, hosts: seq<Host>) returns (k: nat)
    requires Parsed(lib, ListOf(hosts)).Err?
    ensures k < |hosts| && Objection(lib, hosts[k], IdsOf(hosts[..k])) == Some(Parsed(lib, ListOf(hosts)).error)
    ensures forall j :: 0 <= j < k ==> Objection(lib, hosts[j], IdsOf(hosts[..j])).None?
  {
    assert hosts[0..] == hosts && IdsOf(hosts[..0]) == {};
    k := FirstObjectionFrom(lib, hosts, 0);
  }

  /** What a file that is no list of hosts is rejected for. */
  lemma OtherFilesAreRejected(lib: Library, doc: Document)
    requires !doc.ListOf?
    ensures Parsed(lib, doc) == match doc
      case Blank => Err(EmptyFile)
      case Undecodable => Err(DecodeFailed)
      case NullDocument => Err(NotAList)
      case MoreThanOne => Err(MultipleDocuments)
  {
  }
}
