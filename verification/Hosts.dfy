/** The `Host` record of hosts.yaml. The type parameter is what `SkipInterfaces`
    is stored in: a value (`seq<string>`) where only contents matter, a heap array
    where the loader's copies are at stake. */
module Hosts {
  datatype HostOf<+S> = Host(
    id: string,
    name: string,
    mac: string,
    ip: string,
    wolInterface: string,
    user: string,
    passwordFile: string,
    keyPath: string,
    cmd: string,
    skipInterfaces: S,
    pingInterval: int,
    online: bool,
    lastPinged: string)

  type Host = HostOf<seq<string>>

  ghost predicate UniqueIds(hosts: seq<Host>) {
    forall i, j :: 0 <= i < j < |hosts| ==> hosts[i].id != hosts[j].id
  }

  ghost predicate Lists(hosts: seq<Host>, id: string) {
    exists i :: 0 <= i < |hosts| && hosts[i].id == id
  }

  /** The list gives device `id` the address `ip`. */
  ghost predicate ListsAt(hosts: seq<Host>, id: string, ip: string) {
    exists i :: 0 <= i < |hosts| && hosts[i].id == id && hosts[i].ip == ip
  }
}
