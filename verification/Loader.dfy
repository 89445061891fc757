/** The cached loader of hosts.yaml (backend/internal/config/loader.go) on values,
    beside a loader that has no cache at all. */
module LoaderSpec {
  import opened Types
  import opened Hosts
  import opened HostsFile

  datatype FileInfo = FileInfo(modTime: int, size: int, regular: bool)

  /** What the operating system answers during one call. `read` is what reading the
      file that was found would give. */
  datatype World = World(
    cwd: Option<string>,
    primary: Option<FileInfo>,
    fallback: Option<FileInfo>,
    read: Option<Document>)

  datatype LoadError = GetwdFailed | StatFailed | NotRegular | ReadFailed | Unparsable(why: ParseError)

  /** `hosts.None?` is the nil slice: nothing has been loaded. */
  datatype Reply = Reply(hosts: Option<seq<Host>>, error: Option<LoadError>)

  datatype Cache = Cache(
    workingDir: string,
    path: string,
    modTime: int,
    size: int,
    checked: bool,
    hosts: seq<Host>,
    loaded: bool,
    reloadError: Option<LoadError>)

  const FRESH := Cache("", "", 0, 0, false, [], false, None)

  /** The file a call settles on: hosts.yaml below the working directory, or else
      beside it. */
  function Found(lib: Library, w: World): Option<(string, FileInfo)>
    requires w.cwd.Some?
  {
    match (w.primary, w.fallback)
    case (Some(info), _) => Some((lib.primaryPath(w.cwd.value), info))
    case (None, Some(info)) => Some((lib.fallbackPath(w.cwd.value), info))
    case (None, None) => None
  }

  function Kept(c: Cache): Option<seq<Host>> {
    if c.loaded then Some(c.hosts) else None
  }

  function EnterDirectory(c: Cache, cwd: string): Cache {
    if cwd == c.workingDir then c
    else c.(workingDir := cwd, path := "", checked := false, hosts := [], loaded := false, reloadError := None)
  }

  function Reject(c: Cache, e: LoadError): (Cache, Reply) {
    (c.(reloadError := Some(e), checked := false), Reply(Kept(c), Some(e)))
  }

  predicate Matches(c: Cache, path: string, info: FileInfo) {
    c.checked && c.path == path && c.modTime == info.modTime && c.size == info.size
  }

  /** What reading and parsing a file comes to. */
  function Outcome(lib: Library, read: Option<Document>): Result<seq<Host>, LoadError> {
    match read
    case None => Err(ReadFailed)
    case Some(doc) => match Parsed(lib, doc) case Ok(hosts) => Ok(hosts) case Err(e) => Err(Unparsable(e))
  }

  function Read(lib: Library, c: Cache, path: string, info: FileInfo, read: Option<Document>): (Cache, Reply) {
    var keyed := c.(path := path, modTime := info.modTime, size := info.size, checked := read.Some?);
    match Outcome(lib, read)
    case Ok(hosts) => (keyed.(hosts := hosts, loaded := true, reloadError := None), Reply(Some(hosts), None))
    case Err(e) => (keyed.(reloadError := Some(e)), Reply(Kept(keyed), Some(e)))
  }

  /** One `LoadHostsWithStatus`. */
  function Call(lib: Library, c: Cache, w: World): (Cache, Reply) {
    if w.cwd.None? then (c, Reply(None, Some(GetwdFailed)))
    else
      var d := EnterDirectory(c, w.cwd.value);
      match Found(lib, w)
      case None => Reject(d, StatFailed)
      case Some((path, info)) =>
        if !info.regular then Reject(d, NotRegular)
        else if Matches(d, path, info) then (d, Reply(Kept(d), d.reloadError))
        else Read(lib, d, path, info, w.read)
  }

  /** One `LoadHosts`, given what `LoadHostsWithStatus` replied. */
  function WithoutStatus(r: Reply): Reply {
    if r.hosts.Some? then r.(error := None) else r
  }

  lemma CallEntersFirst(lib: Library, c: Cache, w: World)
    requires w.cwd.Some?
    ensures var d := EnterDirectory(c, w.cwd.value);
      Call(lib, c, w) == Call(lib, d, w) && d.workingDir == w.cwd.value
  {
  }

  // ----------------------------------------------------- the loader without a cache

  datatype Plain = Plain(workingDir: string, last: Option<seq<Host>>)

  const FRESH_PLAIN := Plain("", None)

  /** Look, read and parse on every call; keep only the last good list of the
      working directory. */
  function PlainCall(lib: Library, p: Plain, w: World): (Plain, Reply) {
    if w.cwd.None? then (p, Reply(None, Some(GetwdFailed)))
    else
      var q := if w.cwd.value == p.workingDir then p else Plain(w.cwd.value, None);
      if w.primary.None? && w.fallback.None? then (q, Reply(q.last, Some(StatFailed)))
      else if !(if w.primary.Some? then w.primary.value else w.fallback.value).regular then (q, Reply(q.last, Some(NotRegular)))
      else if w.read.None? then (q, Reply(q.last, Some(ReadFailed)))
      else
        match Parsed(lib, w.read.value)
        case Ok(hosts) => (q.(last := Some(hosts)), Reply(Some(hosts), None))
        case Err(e) => (q, Reply(q.last, Some(Unparsable(e))))
  }

  // ------------------------------------------------------------------------- runs

  function After(lib: Library, c: Cache, ws: seq<World>): Cache
    decreases |ws|
  {
    if ws == [] then c else After(lib, Call(lib, c, ws[0]).0, ws[1..])
  }

  function PlainAfter(lib: Library, p: Plain, ws: seq<World>): Plain
    decreases |ws|
  {
    if ws == [] then p else PlainAfter(lib, PlainCall(lib, p, ws[0]).0, ws[1..])
  }

  /** The reply to call `i` of a run from the start of the program. */
  function ReplyAt(lib: Library, ws: seq<World>, i: nat): Reply
    requires i < |ws|
  {
    Call(lib, After(lib, FRESH, ws[..i]), ws[i]).1
  }

  function PlainReplyAt(lib: Library, ws: seq<World>, i: nat): Reply
    requires i < |ws|
  {
    PlainCall(lib, PlainAfter(lib, FRESH_PLAIN, ws[..i]), ws[i]).1
  }

  /** A path with its modification time and size. */
  datatype Key = Key(path: string, modTime: int, size: int)

  /** The file that a call with these answers settles on: below the working directory, or
      else beside it, if it is a regular file. */
  function KeyOf(lib: Library, w: World): Option<Key> {
    if w.cwd.None? then None
    else if w.primary.Some? && w.primary.value.regular then
      Some(Key(lib.primaryPath(w.cwd.value), w.primary.value.modTime, w.primary.value.size))
    else if w.primary.None? && w.fallback.Some? && w.fallback.value.regular then
      Some(Key(lib.fallbackPath(w.cwd.value), w.fallback.value.modTime, w.fallback.value.size))
    else None
  }

  /** The call is answered from the cache. */
  predicate Hit(lib: Library, c: Cache, w: World) {
    c.checked && w.cwd == Some(c.workingDir) && KeyOf(lib, w) == Some(Key(c.path, c.modTime, c.size))
  }
}

module LoaderProperties {
  import opened Types
  import opened Hosts
  import opened HostsFile
  import opened LoaderSpec

  /** The file found, if it can be read, has the contents that go with its key. */
  predicate Identified(lib: Library, contents: Key -> Document, w: World) {
    w.read.Some? && KeyOf(lib, w).Some? ==> w.read.value == contents(KeyOf(lib, w).value)
  }

  ghost predicate AllIdentified(lib: Library, contents: Key -> Document, ws: seq<World>) {
    forall i :: 0 <= i < |ws| ==> Identified(lib, contents, ws[i])
  }

  /** The cache holds what parsing the file of its key gives. */
  predicate Settled(lib: Library, contents: Key -> Document, c: Cache) {
    c.checked ==>
      match Parsed(lib, contents(Key(c.path, c.modTime, c.size)))
      case Ok(hosts) => c.loaded && c.hosts == hosts && c.reloadError == None
      case Err(e) => c.reloadError == Some(Unparsable(e))
  }

  predicate Corresponds(lib: Library, contents: Key -> Document, c: Cache, p: Plain) {
    && Settled(lib, contents, c)
    && c.workingDir == p.workingDir
    && Kept(c) == p.last
  }

  /** Entering another directory forgets the same things in both. */
  lemma EnteringCorresponds(lib: Library, contents: Key -> Document, c: Cache, p: Plain, w: World)
    requires Corresponds(lib, contents, c, p) && w.cwd.Some?
    ensures var d := EnterDirectory(c, w.cwd.value);
      var q := if w.cwd.value == p.workingDir then p else Plain(w.cwd.value, None);
      && Corresponds(lib, contents, d, q)
      && Call(lib, c, w) == Call(lib, d, w) && PlainCall(lib, p, w) == PlainCall(lib, q, w)
      && Hit(lib, c, w) == Hit(lib, d, w)
  {
    CallEntersFirst(lib, c, w);
  }

  /** Reading the file corresponds whatever the cache held. */
  lemma ReadingCorresponds(lib: Library, contents: Key -> Document, c: Cache, p: Plain, w: World)
    requires Corresponds(lib, contents, c, p) && Identified(lib, contents, w)
    requires w.cwd == Some(c.workingDir) && KeyOf(lib, w).Some?
    ensures var k := KeyOf(lib, w).value;
      var info := FileInfo(k.modTime, k.size, true);
      && Corresponds(lib, contents, Read(lib, c, k.path, info, w.read).0, PlainCall(lib, p, w).0)
      && Read(lib, c, k.path, info, w.read).1 == PlainCall(lib, p, w).1
  {
  }

  lemma CallsCorrespondInside(lib: Library, contents: Key -> Document, c: Cache, p: Plain, w: World)
    requires Corresponds(lib, contents, c, p) && Identified(lib, contents, w) && w.cwd == Some(c.workingDir)
    ensures Corresponds(lib, contents, Call(lib, c, w).0, PlainCall(lib, p, w).0)
    ensures Call(lib, c, w).1.hosts == PlainCall(lib, p, w).1.hosts
    ensures Call(lib, c, w).1 == PlainCall(lib, p, w).1 <==> !(Hit(lib, c, w) && w.read.None?)
  {
    if KeyOf(lib, w).Some? && !Hit(lib, c, w) {
      var k := KeyOf(lib, w).value;
      CallReads(lib, c, w);
      ReadingCorresponds(lib, contents, c, p, w);
    }
  }

  /** A call that finds a file and no matching key reads. */
  lemma CallReads(lib: Library, c: Cache, w: World)
    requires w.cwd == Some(c.workingDir) && KeyOf(lib, w).Some? && !Hit(lib, c, w)
    ensures var k := KeyOf(lib, w).value;
      Call(lib, c, w) == Read(lib, c, k.path, FileInfo(k.modTime, k.size, true), w.read)
  {
  }

  lemma CallsCorrespond(lib: Library, contents: Key -> Document, c: Cache, p: Plain, w: World)
    requires Corresponds(lib, contents, c, p) && Identified(lib, contents, w)
    ensures Corresponds(lib, contents, Call(lib, c, w).0, PlainCall(lib, p, w).0)
    ensures Call(lib, c, w).1.hosts == PlainCall(lib, p, w).1.hosts
    ensures Call(lib, c, w).1 == PlainCall(lib, p, w).1 <==> !(Hit(lib, c, w) && w.read.None?)
  {
    if w.cwd.Some? {
      EnteringCorresponds(lib, contents, c, p, w);
      var q := if w.cwd.value == p.workingDir then p else Plain(w.cwd.value, None);
      CallsCorrespondInside(lib, contents, EnterDirectory(c, w.cwd.value), q, w);
    }
  }

  lemma {:induction false} RunsCorrespond(lib: Library, contents: Key -> Document, c: Cache, p: Plain, ws: seq<World>)
    requires Corresponds(lib, contents, c, p) && AllIdentified(lib, contents, ws)
    ensures Corresponds(lib, contents, After(lib, c, ws), PlainAfter(lib, p, ws))
    decreases |ws|
  {
    if ws != [] {
      assert Identified(lib, contents, ws[0]);
      CallsCorrespond(lib, contents, c, p, ws[0]);
      RunsCorrespond(lib, contents, Call(lib, c, ws[0]).0, PlainCall(lib, p, ws[0]).0, ws[1..]);
    }
  }

  /** If path, modification time and size identify a file's contents, the cache never
      shows in the hosts, and shows in the error exactly when a file that was read
      before and has not changed since can no longer be read. */
  lemma CacheIsInvisible(lib: Library, contents: Key -> Document, ws: seq<World>, i: nat)
    requires AllIdentified(lib, contents, ws) && i < |ws|
    ensures ReplyAt(lib, ws, i).hosts == PlainReplyAt(lib, ws, i).hosts
    ensures ReplyAt(lib, ws, i) == PlainReplyAt(lib, ws, i)
      <==> !(Hit(lib, After(lib, FRESH, ws[..i]), ws[i]) && ws[i].read.None?)
  {
    RunsCorrespond(lib, contents, FRESH, FRESH_PLAIN, ws[..i]);
    assert Identified(lib, contents, ws[i]);
    CallsCorrespond(lib, contents, After(lib, FRESH, ws[..i]), PlainAfter(lib, FRESH_PLAIN, ws[..i]), ws[i]);
  }

  /** The exception exists: an empty list is read, and then its file becomes
      unreadable without a new modification time. The cache reports no error. */
  lemma UnreadableFileIsMissed(lib: Library, cwd: string, info: FileInfo)
    requires info.regular
    ensures
      var found := World(Some(cwd), Some(info), None, Some(ListOf([])));
      var ws := [found, found.(read := None)];
      && AllIdentified(lib, _ => ListOf([]), ws)
      && ReplyAt(lib, ws, 1) == Reply(Some([]), None)
      && PlainReplyAt(lib, ws, 1) == Reply(Some([]), Some(ReadFailed))
  {
    var found := World(Some(cwd), Some(info), None, Some(ListOf([])));
    var ws := [found, found.(read := None)];
    assert ws[..1] == [found];
    assert After(lib, FRESH, [found]) == Call(lib, FRESH, found).0;
    assert PlainAfter(lib, FRESH_PLAIN, [found]) == PlainCall(lib, FRESH_PLAIN, found).0;
    assert Parsed(lib, ListOf([])) == Ok([]);
  }

  // ------------------------------------------------------------ what is ever returned

  lemma {:induction false} KeptListIsValid(lib: Library, c: Cache, ws: seq<World>)
    requires c.loaded ==> ValidList(lib, c.hosts)
    ensures var d := After(lib, c, ws); d.loaded ==> ValidList(lib, d.hosts)
    decreases |ws|
  {
    if ws != [] {
      if ws[0].read.Some? { AcceptsExactlyValidLists(lib, ws[0].read.value); }
      KeptListIsValid(lib, Call(lib, c, ws[0]).0, ws[1..]);
    }
  }

  /** Every list returned in any run is fully valid: no hypothesis on the file system. */
  lemma ReturnedListsAreValid(lib: Library, ws: seq<World>, i: nat)
    requires i < |ws|
    ensures ReplyAt(lib, ws, i).hosts.Some? ==> ValidList(lib, ReplyAt(lib, ws, i).hosts.value)
  {
    KeptListIsValid(lib, FRESH, ws[..i]);
    if ws[i].read.Some? { AcceptsExactlyValidLists(lib, ws[i].read.value); }
  }

  /** Call `i` reads the file and finds the valid list `hosts` in it. */
  ghost predicate LoadsAt(lib: Library, ws: seq<World>, i: nat, hosts: seq<Host>)
    requires i < |ws|
  {
    && KeyOf(lib, ws[i]).Some? && !Hit(lib, After(lib, FRESH, ws[..i]), ws[i])
    && ws[i].read == Some(ListOf(hosts)) && ValidList(lib, hosts)
  }

  /** Such a call returns the list, without error, and remembers the key of its file. */
  lemma ValidFileIsLoaded(lib: Library, ws: seq<World>, i: nat, hosts: seq<Host>)
    requires i < |ws| && LoadsAt(lib, ws, i, hosts)
    ensures ReplyAt(lib, ws, i) == Reply(Some(hosts), None)
    ensures var c := Call(lib, After(lib, FRESH, ws[..i]), ws[i]).0;
      && c.loaded && c.hosts == hosts && Some(c.workingDir) == ws[i].cwd
      && c.checked && KeyOf(lib, ws[i]) == Some(Key(c.path, c.modTime, c.size))
  {
    AcceptsExactlyValidLists(lib, ListOf(hosts));
  }

  /** Every error says what went wrong, unless the call is answered from the cache. */
  lemma ErrorsSayWhy(lib: Library, c: Cache, w: World)
    requires !Hit(lib, c, w)
    ensures var error := Call(lib, c, w).1.error;
      && (error == Some(GetwdFailed) <==> w.cwd.None?)
      && (error == Some(StatFailed) <==> w.cwd.Some? && w.primary.None? && w.fallback.None?)
      && (error == Some(NotRegular) <==>
            w.cwd.Some? && (w.primary.Some? || w.fallback.Some?) && KeyOf(lib, w).None?)
      && (error == Some(ReadFailed) <==> KeyOf(lib, w).Some? && w.read.None?)
      && (error == None <==> KeyOf(lib, w).Some? && w.read.Some? && w.read.value.ListOf? && ValidList(lib, w.read.value.hosts))
  {
    if w.read.Some? { AcceptsExactlyValidLists(lib, w.read.value); }
  }

  /** A list is returned only in the working directory it was read in. */
  lemma NewDirectoryStartsAfresh(lib: Library, c: Cache, w: World)
    requires w.cwd.Some? && w.cwd.value != c.workingDir
    ensures Call(lib, c, w) == Call(lib, FRESH.(workingDir := w.cwd.value, modTime := c.modTime, size := c.size), w)
    ensures Call(lib, c, w).1.hosts.Some? ==>
      w.read.Some? && w.read.value.ListOf? && Call(lib, c, w).1.hosts.value == w.read.value.hosts
  {
    if w.read.Some? { AcceptsExactlyValidLists(lib, w.read.value); }
  }

  /** From the last good reading on, as long as the working directory stays and every
      later reading fails, each call that knows its directory returns that list. */
  lemma {:induction false} LastGoodListStays(lib: Library, ws: seq<World>, i: nat, j: nat, hosts: seq<Host>)
    requires i <= j < |ws| && LoadsAt(lib, ws, i, hosts)
    requires forall k :: i <= k <= j ==> ws[k].cwd == ws[i].cwd
    requires forall k, hs :: i < k <= j && ws[k].read == Some(ListOf(hs)) ==> !ValidList(lib, hs)
    ensures ReplyAt(lib, ws, j).hosts == Some(hosts)
    ensures var c := After(lib, FRESH, ws[..j + 1]); c.loaded && c.hosts == hosts && Some(c.workingDir) == ws[i].cwd
    decreases j
  {
    AfterLast(lib, FRESH, ws[..j], ws[j]);
    assert ws[..j] + [ws[j]] == ws[..j + 1];
    if i == j {
      ValidFileIsLoaded(lib, ws, i, hosts);
    } else {
      LastGoodListStays(lib, ws, i, j - 1, hosts);
      if ws[j].read.Some? { AcceptsExactlyValidLists(lib, ws[j].read.value); }
    }
  }

  lemma {:induction false} AfterLast(lib: Library, c: Cache, ws: seq<World>, w: World)
    ensures After(lib, c, ws + [w]) == Call(lib, After(lib, c, ws), w).0
    decreases |ws|
  {
    if ws != [] {
      assert (ws + [w])[1..] == ws[1..] + [w];
      AfterLast(lib, Call(lib, c, ws[0]).0, ws[1..], w);
    }
  }

  /** `LoadHosts` hides an error exactly if there is a list to return, and it never
      returns neither; so an empty list is not taken for "never loaded". */
  lemma LoadHostsHidesErrors(lib: Library, ws: seq<World>, i: nat)
    requires i < |ws|
    ensures var r := ReplyAt(lib, ws, i);
      && WithoutStatus(r).hosts == r.hosts
      && (WithoutStatus(r).error.None? <==> r.hosts.Some?)
      && (r.hosts.None? ==> r.error.Some?)
  {
    NothingLoadedIsAnError(lib, FRESH, ws[..i]);
  }

  lemma {:induction false} NothingLoadedIsAnError(lib: Library, c: Cache, ws: seq<World>)
    requires c.checked && !c.loaded ==> c.reloadError.Some?
    ensures var d := After(lib, c, ws); d.checked && !d.loaded ==> d.reloadError.Some?
    decreases |ws|
  {
    if ws != [] { NothingLoadedIsAnError(lib, Call(lib, c, ws[0]).0, ws[1..]); }
  }

  /** A valid empty file, freshly read, is an empty list without error. */
  lemma EmptyListIsLoaded(lib: Library, ws: seq<World>, i: nat)
    requires i < |ws| && LoadsAt(lib, ws, i, [])
    ensures ReplyAt(lib, ws, i) == Reply(Some([]), None)
  {
    ValidFileIsLoaded(lib, ws, i, []);
  }
}

/** The loader as it runs: lists of hosts live on the heap and are handed out by
    reference, so what matters is who can still write to them. */
module LoaderCode {
  import opened Types
  import opened Hosts
  import opened HostsFile
  import opened LoaderSpec

  type HeapHost = HostOf<array<string>>

  function WithSkips<A, B>(h: HostOf<A>, skips: B): HostOf<B> {
    Host(h.id, h.name, h.mac, h.ip, h.wolInterface, h.user, h.passwordFile, h.keyPath, h.cmd,
         skips, h.pingInterval, h.online, h.lastPinged)
  }

  ghost function Skips(a: array<HeapHost>): set<object>
    reads a
  {
    set i | 0 <= i < a.Length :: a[i].skipInterfaces
  }

  ghost function Footprint(a: array?<HeapHost>): set<object>
    reads a
  {
    if a == null then {} else {a} + Skips(a)
  }

  ghost function ValueAt(a: array<HeapHost>, i: nat): Host
    requires i < a.Length
    reads a, Skips(a)
  {
    WithSkips(a[i], a[i].skipInterfaces[..])
  }

  /** The hosts of a heap list as values. */
  ghost function Values(a: array<HeapHost>): (hosts: seq<Host>)
    reads a, Skips(a)
    ensures |hosts| == a.Length
    ensures forall i :: 0 <= i < a.Length ==> hosts[i] == ValueAt(a, i)
  {
    seq(a.Length, i requires 0 <= i < a.Length reads a, Skips(a) => ValueAt(a, i))
  }

  ghost function Listed(a: array?<HeapHost>): Option<seq<Host>>
    reads a, Footprint(a)
  {
    if a == null then None else Some(Values(a))
  }

  /** The list that decoding a file allocates. */
  method Allocate(hosts: seq<Host>) returns (a: array<HeapHost>)
    ensures fresh(a) && fresh(Skips(a)) && Values(a) == hosts
  {
    if hosts == [] {
      a := new HeapHost[0];
      return;
    }
    var none := new string[0];
    a := new HeapHost[|hosts|](i => WithSkips(hosts[0], none));
    for i := 0 to |hosts|
      invariant fresh(a) && a.Length == |hosts|
      invariant forall k :: 0 <= k < a.Length ==> fresh(a[k].skipInterfaces)
      invariant forall k :: 0 <= k < i ==> WithSkips(a[k], a[k].skipInterfaces[..]) == hosts[k]
    {
      var names := hosts[i].skipInterfaces;
      var skips := new string[|names|](k requires 0 <= k < |names| => names[k]);
      assert skips[..] == names;
      a[i] := WithSkips(hosts[i], skips);
    }
    assert Values(a) == hosts;
  }

  method CopyHosts(hosts: array?<HeapHost>, loaded: bool) returns (out: array?<HeapHost>)
    requires loaded ==> hosts != null
    ensures fresh(Footprint(out))
    ensures Listed(out) == if loaded then Listed(hosts) else None
  {
    if !loaded { return null; }
    var a := new HeapHost[hosts.Length](i requires 0 <= i < hosts.Length reads hosts => hosts[i]);
    for i := 0 to a.Length
      invariant fresh(a) && a.Length == hosts.Length
      invariant forall k :: 0 <= k < i ==> fresh(a[k].skipInterfaces)
      invariant forall k :: 0 <= k < i ==> WithSkips(a[k], a[k].skipInterfaces[..]) == ValueAt(hosts, k)
      invariant forall k :: i <= k < a.Length ==> a[k] == hosts[k]
    {
      var names := hosts[i].skipInterfaces;
      var skips := new string[names.Length](k requires 0 <= k < names.Length reads names => names[k]);
      assert skips[..] == names[..];
      a[i] := a[i].(skipInterfaces := skips);
    }
    assert Values(a) == Values(hosts);
    out := a;
  }

  class Loader {
    var workingDir: string
    var path: string
    var modTime: int
    var size: int
    var checked: bool
    var hosts: array?<HeapHost>
    var loaded: bool
    var reloadError: Option<LoadError>

    /** Every array that was ever handed out: callers may write to all of these. */
    ghost var handedOut: set<object>

    ghost function Repr(): set<object>
      reads this, hosts
    {
      {this} + Footprint(hosts)
    }

    ghost predicate Valid()
      reads this, hosts
    {
      (loaded ==> hosts != null) && handedOut !! Repr()
    }

    /** The loader's state as a value. */
    ghost function View(): Cache
      reads this, hosts, Footprint(hosts)
    {
      Cache(workingDir, path, modTime, size, checked,
            if hosts == null then [] else Values(hosts), loaded, reloadError)
    }

    constructor ()
      ensures Valid() && View() == FRESH && handedOut == {}
    {
      workingDir, path, modTime, size, checked := "", "", 0, 0, false;
      hosts, loaded, reloadError := null, false, None;
      handedOut := {};
    }

    method LoadHostsWithStatus(lib: Library, w: World) returns (out: array?<HeapHost>, error: Option<LoadError>)
      requires Valid()
      modifies this
      ensures Valid()
      ensures (View(), Reply(Listed(out), error)) == Call(lib, old(View()), w)
      ensures fresh(Footprint(out)) && handedOut == old(handedOut) + Footprint(out)
    {
      if w.cwd.None? { return null, Some(GetwdFailed); }
      CallEntersFirst(lib, View(), w);
      Enter(w.cwd.value);
      Refresh(lib, w);
      error := reloadError;
      out := HandOut();
    }

    method HandOut() returns (out: array?<HeapHost>)
      requires Valid()
      modifies this`handedOut
      ensures Valid() && View() == old(View())
      ensures Listed(out) == Kept(View())
      ensures fresh(Footprint(out)) && handedOut == old(handedOut) + Footprint(out)
    {
      out := CopyHosts(hosts, loaded);
      handedOut := handedOut + Footprint(out);
    }

    method Enter(cwd: string)
      requires Valid()
      modifies this
      ensures Valid() && handedOut == old(handedOut)
      ensures View() == EnterDirectory(old(View()), cwd)
    {
      if cwd != workingDir {
        workingDir, path, checked := cwd, "", false;
        hosts, loaded, reloadError := null, false, None;
      }
    }

    /** The call from the first look at the file on, up to the copies. */
    method Refresh(lib: Library, w: World)
      requires Valid() && w.cwd == Some(workingDir)
      modifies this
      ensures Valid() && handedOut == old(handedOut)
      ensures (View(), Reply(Kept(View()), reloadError)) == Call(lib, old(View()), w)
    {
      var where, info := lib.primaryPath(workingDir), w.primary;
      if info.None? {
        where, info := lib.fallbackPath(workingDir), w.fallback;
      }
      if info.None? || !info.value.regular {
        reloadError := Some(if info.None? then StatFailed else NotRegular);
        checked := false;
      } else if !(checked && path == where && modTime == info.value.modTime && size == info.value.size) {
        Reload(lib, where, info.value, w.read);
      }
    }

    /** The part of the call that reads the file. */
    method Reload(lib: Library, where: string, info: FileInfo, read: Option<Document>)
      requires Valid()
      modifies this
      ensures Valid() && handedOut == old(handedOut)
      ensures View() == Read(lib, old(View()), where, info, read).0
    {
      var outcome := ReadHosts(lib, read);
      SetKey(where, info, outcome != Err(ReadFailed));
      Settle(outcome);
    }

    method SetKey(where: string, info: FileInfo, checked: bool)
      requires Valid()
      modifies this
      ensures Valid() && handedOut == old(handedOut)
      ensures View() == old(View()).(path := where, modTime := info.modTime, size := info.size, checked := checked)
    {
      path, modTime, size, this.checked := where, info.modTime, info.size, checked;
    }

    static method ReadHosts(lib: Library, read: Option<Document>) returns (outcome: Result<seq<Host>, LoadError>)
      ensures outcome == Outcome(lib, read)
    {
      if read.None? { return Err(ReadFailed); }
      var parsed := ParseHosts(lib, read.value);
      outcome := if parsed.Ok? then Ok(parsed.value) else Err(Unparsable(parsed.error));
    }

    method Settle(outcome: Result<seq<Host>, LoadError>)
      requires Valid()
      modifies this
      ensures Valid() && handedOut == old(handedOut)
      ensures View() == match outcome
        case Ok(list) => old(View()).(hosts := list, loaded := true, reloadError := None)
        case Err(e) => old(View()).(reloadError := Some(e))
    {
      match outcome {
        case Ok(list) =>
          hosts := Allocate(list);
          loaded, reloadError := true, None;
        case Err(e) => reloadError := Some(e);
      }
    }

    method LoadHosts(lib: Library, w: World) returns (out: array?<HeapHost>, error: Option<LoadError>)
      requires Valid()
      modifies this
      ensures Valid()
      ensures View() == Call(lib, old(View()), w).0
      ensures Reply(Listed(out), error) == WithoutStatus(Call(lib, old(View()), w).1)
      ensures fresh(Footprint(out)) && handedOut == old(handedOut) + Footprint(out)
    {
      out, error := LoadHostsWithStatus(lib, w);
      if out != null { error := None; }
    }
  }

  /** Whatever is written to the arrays handed out so far, the loader does not notice. */
  twostate lemma CallersCannotReachIn(l: Loader)
    requires old(l.Valid())
    requires forall o: object :: o in old(l.Repr()) - old(l.handedOut) ==> unchanged(o)
    ensures l.Valid() && l.View() == old(l.View())
  {
    assert old(l.Repr()) - old(l.handedOut) == old(l.Repr());
    assert l in old(l.Repr());
  }

  /** A caller loads a list, overwrites a host and a skip entry in it, and loads
      again: the second reply is the one an untouched list would have led to. */
  method WriteBetweenCalls(l: Loader, lib: Library, first: World, second: World,
                           i: nat, h: HeapHost, j: nat, name: string)
    returns (mine: array?<HeapHost>, out: array?<HeapHost>, error: Option<LoadError>)
    requires l.Valid()
    modifies l
    ensures l.Valid()
    ensures Reply(Listed(out), error) == Call(lib, Call(lib, old(l.View()), first).0, second).1
    ensures mine != null ==> mine !in Footprint(out)
  {
    var e: Option<LoadError>;
    mine, e := l.LoadHostsWithStatus(lib, first);
    if mine != null { Overwrite(mine, i, h, j, name); }
    out, error := l.LoadHostsWithStatus(lib, second);
  }

  method Overwrite(mine: array<HeapHost>, i: nat, h: HeapHost, j: nat, name: string)
    modifies Footprint(mine)
  {
    if i < mine.Length {
      assert mine[i].skipInterfaces in Skips(mine);
      if j < mine[i].skipInterfaces.Length { mine[i].skipInterfaces[j] := name; }
      mine[i] := h;
    }
  }
}
