/** The persistent client registry of the DNS server's web front end: clients
    added by the user, each known by a name and a list of IDs (an IP address,
    a CIDR range or a MAC address), and "auto-clients" discovered from
    /etc/hosts, ARP, DHCP, reverse DNS and WHOIS, known only by IP.

    Go's registry holds three maps, two of which point at the same `Client`
    objects. Here the ID index maps an ID to its owner's NAME instead of a
    reference; `Valid` says the two indexes agree, every operation preserves
    it, and on valid states the name is exactly the reference's identity. */
module Clients {
  import opened Results
  import opened Net

  /** `clientSource`: where an auto-client's hostname came from. The Go
      constants take the values 0 to 4 in this order. */
  datatype Source = Whois | Rdns | Dhcp | Arp | HostsFile

  /** The numeric value of a source constant. */
  function Priority(s: Source): (p: nat)
    ensures p < 5
    ensures s == Whois <==> p == 0
    ensures s == HostsFile <==> p == 4
  {
    match s
    case Whois => 0
    case Rdns => 1
    case Dhcp => 2
    case Arp => 3
    case HostsFile => 4
  }

  /** The constants are strictly increasing in declaration order, so no two
      sources share a value and `Above` is a strict total order. */
  lemma PriorityOrder()
    ensures Priority(Whois) < Priority(Rdns) < Priority(Dhcp) < Priority(Arp) < Priority(HostsFile)
    ensures forall a: Source, b: Source :: Priority(a) == Priority(b) ==> a == b
  {
  }

  /** `a > b` on two `clientSource` values. */
  predicate Above(a: Source, b: Source) {
    Priority(a) > Priority(b)
  }

  /** WHOIS information as `[[key, value], ...]`. */
  type WhoisInfo = seq<seq<string>>

  /** `Client`: a client the user configured. */
  datatype Client = Client(
    ids: seq<string>,
    name: string,
    useOwnSettings: bool,
    filteringEnabled: bool,
    safeSearchEnabled: bool,
    safeBrowsingEnabled: bool,
    parentalEnabled: bool,
    whoisInfo: WhoisInfo,
    useOwnBlockedServices: bool,
    blockedServices: seq<string>,
    upstreams: seq<string>)

  /** `ClientHost`: an auto-client, known by IP only. */
  datatype ClientHost = ClientHost(host: string, source: Source, whoisInfo: WhoisInfo)

  /** `clientsContainer`: clients by name, the owner of each ID, and the
      auto-clients by IP. */
  datatype Registry = Registry(
    list: map<string, Client>,
    idIndex: map<string, string>,
    ipHost: map<string, ClientHost>)

  /** The errors the registry reports, one per distinct message. */
  datatype Error =
    | InvalidName
    | IDRequired
    | InvalidID(id: string)
    | InvalidUpstreams
    | DuplicateID(id: string, owner: string)
    | NotFound
    | AlreadyExists

  /** The registry `Init` starts from. */
  function Empty(): (r: Registry)
    ensures r.list == map[] && r.idIndex == map[] && r.ipHost == map[]
    ensures Valid(r) && Disjoint(r)
  {
    Registry(map[], map[], map[])
  }

  /** Every client is filed under its own name, every indexed ID belongs to
      the client the index names, and every ID of every client is indexed
      to that client. The last two make IDs unique across clients. */
  ghost predicate Valid(r: Registry) {
    && (forall n :: n in r.list ==> r.list[n].name == n)
    && (forall id :: id in r.idIndex ==> r.idIndex[id] in r.list && id in r.list[r.idIndex[id]].ids)
    && (forall n, id :: n in r.list && id in r.list[n].ids ==> id in r.idIndex && r.idIndex[id] == n)
  }

  /** No IP is both a client ID and an auto-client. */
  ghost predicate Disjoint(r: Registry) {
    forall id :: id in r.idIndex ==> id !in r.ipHost
  }

  // ---------------------------------------------------------------------------
  // check

  /** An ID is an IP address, a CIDR range or a MAC address. */
  predicate ValidID(lib: Library, id: string) {
    lib.parseIP(id).Some? || lib.isCIDR(id) || lib.isMAC(id)
  }

  /** An IP address is rewritten in its canonical spelling; a CIDR range or
      a MAC address is kept as written. */
  function NormalizeID(lib: Library, id: string): (r: string)
    ensures lib.parseIP(id).None? ==> r == id
  {
    match lib.parseIP(id)
    case Some(ip) => lib.formatIP(ip)
    case None => id
  }

  /** The ID loop of `check`: every ID normalized, or the first invalid one. */
  function NormalizeIDs(lib: Library, ids: seq<string>): (r: Result<seq<string>, Error>)
    ensures r.Success? <==> forall i :: 0 <= i < |ids| ==> ValidID(lib, ids[i])
    ensures r.Success? ==> |r.value| == |ids|
                           && forall i :: 0 <= i < |ids| ==> r.value[i] == NormalizeID(lib, ids[i])
    ensures r.Failure? ==> exists k :: 0 <= k < |ids| && r.error == InvalidID(ids[k])
                             && !ValidID(lib, ids[k])
                             && forall j :: 0 <= j < k ==> ValidID(lib, ids[j])
  {
    if |ids| == 0 then Success([])
    else if !ValidID(lib, ids[0]) then Failure(InvalidID(ids[0]))
    else
      match NormalizeIDs(lib, ids[1..])
      case Failure(e) => Failure(e)
      case Success(rest) => Success([NormalizeID(lib, ids[0])] + rest)
  }

  /** What `check` accepts: a non-empty name, at least one ID, every ID
      valid, and valid upstreams when any are given. */
  predicate Acceptable(lib: Library, c: Client) {
    && |c.name| > 0
    && |c.ids| > 0
    && (forall i :: 0 <= i < |c.ids| ==> ValidID(lib, c.ids[i]))
    && (|c.upstreams| == 0 || lib.validUpstreams(c.upstreams))
  }

  /** `Client.check`: the client with its IDs normalized, or the first
      problem found, checked in the order name, IDs, each ID, upstreams. */
  function Check(lib: Library, c: Client): (r: Result<Client, Error>)
    ensures r.Success? <==> Acceptable(lib, c)
    ensures r.Success? ==> r.value.(ids := c.ids) == c
                           && |r.value.ids| == |c.ids|
                           && forall i :: 0 <= i < |c.ids| ==> r.value.ids[i] == NormalizeID(lib, c.ids[i])
    ensures |c.name| == 0 ==> r == Failure(InvalidName)
    ensures |c.name| > 0 && |c.ids| == 0 ==> r == Failure(IDRequired)
    ensures r.Failure? && r.error.InvalidID? ==> !ValidID(lib, r.error.id) && r.error.id in c.ids
    ensures (|c.name| > 0 && |c.ids| > 0 && (forall i :: 0 <= i < |c.ids| ==> ValidID(lib, c.ids[i])) && r.Failure?)
            ==> r == Failure(InvalidUpstreams)
  {
    if |c.name| == 0 then Failure(InvalidName)
    else if |c.ids| == 0 then Failure(IDRequired)
    else
      match NormalizeIDs(lib, c.ids)
      case Failure(e) => Failure(e)
      case Success(ids) =>
        if |c.upstreams| != 0 && !lib.validUpstreams(c.upstreams) then Failure(InvalidUpstreams)
        else Success(c.(ids := ids))
  }

  // ---------------------------------------------------------------------------
  // Index helpers

  /** An ID that belongs to a client other than `self` (any client when
      `self` is `None`). */
  predicate Foreign(index: map<string, string>, id: string, self: Option<string>) {
    id in index && Some(index[id]) != self
  }

  /** The position of the first ID that belongs to another client. */
  function FirstForeign(ids: seq<string>, index: map<string, string>, self: Option<string>): (k: Option<nat>)
    ensures k.None? <==> forall i :: 0 <= i < |ids| ==> !Foreign(index, ids[i], self)
    ensures k.Some? ==> k.value < |ids| && Foreign(index, ids[k.value], self)
                        && forall j :: 0 <= j < k.value ==> !Foreign(index, ids[j], self)
  {
    if |ids| == 0 then None
    else if Foreign(index, ids[0], self) then Some(0)
    else
      match FirstForeign(ids[1..], index, self)
      case None => None
      case Some(k) => Some(k + 1)
  }

  /** The index with every ID of `ids` filed under `owner`. */
  function IndexIDs(index: map<string, string>, ids: seq<string>, owner: string): (r: map<string, string>)
    ensures forall id :: id in r <==> id in index || id in ids
    ensures forall id :: id in r ==> r[id] == if id in ids then owner else index[id]
  {
    index + map id | id in ids :: owner
  }

  /** A map keyed by ID without the entries for `ids`: the ID index after
      a client's IDs are dropped, or the auto-clients absorbed by a client. */
  function WithoutIDs<V>(m: map<string, V>, ids: seq<string>): (r: map<string, V>)
    ensures forall id :: id in r <==> id in m && id !in ids
    ensures forall id :: id in r ==> r[id] == m[id]
  {
    m - set id | id in ids
  }

  /** The index with every ID of client `from` moved to client `to`. */
  function RenameOwner(index: map<string, string>, from: string, to: string): (r: map<string, string>)
    ensures r.Keys == index.Keys
    ensures forall id :: id in r ==> r[id] == if index[id] == from then to else index[id]
  {
    map id | id in index :: if index[id] == from then to else index[id]
  }

  // ---------------------------------------------------------------------------
  // Add, Del

  /** The WHOIS information a new client ends up with: its own when it has
      some, otherwise that of the first auto-client among its IDs that has
      some, otherwise none. */
  function InheritWhois(own: WhoisInfo, ids: seq<string>, ipHost: map<string, ClientHost>): (w: WhoisInfo)
    ensures |own| > 0 ==> w == own
    ensures |own| == 0 && |w| > 0 ==>
              exists k :: 0 <= k < |ids| && ids[k] in ipHost && w == ipHost[ids[k]].whoisInfo
                && forall j :: 0 <= j < k && ids[j] in ipHost ==> |ipHost[ids[j]].whoisInfo| == 0
    ensures |w| == 0 ==> forall i :: 0 <= i < |ids| && ids[i] in ipHost ==> |ipHost[ids[i]].whoisInfo| == 0
    decreases |ids|
  {
    if |own| > 0 || |ids| == 0 then own
    else if ids[0] in ipHost then InheritWhois(ipHost[ids[0]].whoisInfo, ids[1..], ipHost)
    else InheritWhois(own, ids[1..], ipHost)
  }

  /** `Add`: refuses a client `check` rejects (error), one whose name is
      taken (`false` without error), and one with an ID another client
      owns (error). Otherwise files the normalized client, removes the
      auto-clients of its IDs, taking over their WHOIS information when the
      client has none, and answers `true`. */
  function Add(lib: Library, r: Registry, c: Client): (out: (Registry, Result<bool, Error>))
    ensures out.1 != Success(true) ==> out.0 == r
    ensures out.1.Failure? && !out.1.error.DuplicateID? ==> Check(lib, c) == Failure(out.1.error)
    ensures out.1 == Success(false) <==> Acceptable(lib, c) && c.name in r.list
    ensures out.1.Success? ==> Acceptable(lib, c)
    ensures out.1 == Success(true) ==>
              var n := Check(lib, c).value;
              && c.name !in r.list
              && (forall i :: 0 <= i < |n.ids| ==> n.ids[i] !in r.idIndex)
              && c.name in out.0.list
              && out.0.list == r.list[c.name := out.0.list[c.name]]
              && out.0.list[c.name] == n.(whoisInfo := InheritWhois(n.whoisInfo, n.ids, r.ipHost))
              && (forall i :: 0 <= i < |n.ids| ==>
                    n.ids[i] in out.0.idIndex && out.0.idIndex[n.ids[i]] == c.name && n.ids[i] !in out.0.ipHost)
    ensures out.1.Failure? && out.1.error.DuplicateID? ==>
              out.1.error.id in r.idIndex && r.idIndex[out.1.error.id] == out.1.error.owner
    ensures out.1.Failure? && out.1.error.DuplicateID? ==>
              Acceptable(lib, c) && c.name !in r.list && out.1.error.id in Check(lib, c).value.ids
    ensures out.1 == Success(true) <==>
              && Acceptable(lib, c) && c.name !in r.list
              && forall i :: 0 <= i < |Check(lib, c).value.ids| ==> Check(lib, c).value.ids[i] !in r.idIndex
    ensures out.1 == Success(true) ==>
              var ids := Check(lib, c).value.ids;
              && (forall id :: id in out.0.idIndex <==> id in r.idIndex || id in ids)
              && (forall id :: id in r.idIndex ==> out.0.idIndex[id] == r.idIndex[id])
              && (forall h :: h in out.0.ipHost <==> h in r.ipHost && h !in ids)
              && (forall h :: h in out.0.ipHost ==> out.0.ipHost[h] == r.ipHost[h])
  {
    match Check(lib, c)
    case Failure(e) => (r, Failure(e))
    case Success(n) => Insert(r, n)
  }

  /** `Add` once `check` has accepted the client as `n`: the name test, the
      ID test, then the filing. */
  function Insert(r: Registry, n: Client): (out: (Registry, Result<bool, Error>))
    ensures out.1 != Success(true) ==> out.0 == r
    ensures out.1 == Success(false) <==> n.name in r.list
    ensures out.1.Failure? ==>
              && out.1.error.DuplicateID? && n.name !in r.list && out.1.error.id in n.ids
              && out.1.error.id in r.idIndex && r.idIndex[out.1.error.id] == out.1.error.owner
    ensures out.1 == Success(true) <==> n.name !in r.list && forall i :: 0 <= i < |n.ids| ==> n.ids[i] !in r.idIndex
    ensures out.1 == Success(true) ==>
              out.0 == Registry(r.list[n.name := n.(whoisInfo := InheritWhois(n.whoisInfo, n.ids, r.ipHost))],
                                IndexIDs(r.idIndex, n.ids, n.name), WithoutIDs(r.ipHost, n.ids))
  {
    if n.name in r.list then (r, Success(false))
    else
      match FirstForeign(n.ids, r.idIndex, None)
      case Some(k) => (r, Failure(DuplicateID(n.ids[k], r.idIndex[n.ids[k]])))
      case None =>
        var stored := n.(whoisInfo := InheritWhois(n.whoisInfo, n.ids, r.ipHost));
        (Registry(r.list[n.name := stored], IndexIDs(r.idIndex, n.ids, n.name), WithoutIDs(r.ipHost, n.ids)),
         Success(true))
  }

  /** `Del`: removes the client with this name and its IDs from the index;
      `false` when there is no such client. Auto-clients are untouched. */
  function Del(r: Registry, name: string): (out: (Registry, bool))
    ensures out.1 <==> name in r.list
    ensures !out.1 ==> out.0 == r
    ensures name !in out.0.list
    ensures forall n :: n in r.list && n != name ==> n in out.0.list && out.0.list[n] == r.list[n]
    ensures out.0.list.Keys <= r.list.Keys
    ensures out.1 ==> forall i :: 0 <= i < |r.list[name].ids| ==> r.list[name].ids[i] !in out.0.idIndex
    ensures out.0.ipHost == r.ipHost
  {
    if name !in r.list then (r, false)
    else (Registry(r.list - {name}, WithoutIDs(r.idIndex, r.list[name].ids), r.ipHost), true)
  }

  // ---------------------------------------------------------------------------
  // arraysEqual, Update

  /** `arraysEqual`: equal lengths, then element by element. */
  method ArraysEqual(a: seq<string>, b: seq<string>) returns (r: bool)
    ensures r <==> a == b
  {
    if |a| != |b| {
      return false;
    }
    var i := 0;
    while i != |a|
      invariant 0 <= i <= |a|
      invariant a[..i] == b[..i]
    {
      if a[i] != b[i] {
        return false;
      }
      i := i + 1;
    }
    assert a == a[..i] && b == b[..i];
    return true;
  }

  /** `Update`: replaces the client filed under `name` by `c` (normalized).
      Fails when `check` rejects `c`, when there is no such client, when the
      new name belongs to another client, or, when the ID list changes, when
      one of the new IDs belongs to another client. The replacement takes
      the new name, IDs and WHOIS information; auto-clients are untouched. */
  function Update(lib: Library, r: Registry, name: string, c: Client): (out: (Registry, Outcome<Error>))
    requires Valid(r)
    ensures out.1.Fail? ==> out.0 == r
    ensures out.1.Pass? ==> Acceptable(lib, c) && name in r.list
    ensures out.1.Pass? ==> c.name in out.0.list && out.0.list[c.name] == Check(lib, c).value
    ensures out.1.Pass? && name in r.list && r.list[name].name != c.name ==> r.list[name].name !in out.0.list
    ensures out.1.Pass? ==> out.0.ipHost == r.ipHost
    ensures out.1.Pass? ==> forall n :: n in r.list && n != name ==> n in out.0.list && out.0.list[n] == r.list[n]
    ensures Acceptable(lib, c) && name !in r.list ==> out.1 == Fail(NotFound)
    ensures Acceptable(lib, c) && name in r.list && r.list[name].name != c.name && c.name in r.list
            ==> out.1 == Fail(AlreadyExists)
    ensures !Acceptable(lib, c) ==> out.1 == Fail(Check(lib, c).error)
    ensures out.1.Pass? <==>
              && Acceptable(lib, c) && name in r.list
              && (c.name != name ==> c.name !in r.list)
              && (r.list[name].ids != Check(lib, c).value.ids ==>
                    forall i :: 0 <= i < |Check(lib, c).value.ids| ==>
                      !Foreign(r.idIndex, Check(lib, c).value.ids[i], Some(name)))
    ensures out.1.Pass? ==> out.0.list.Keys == r.list.Keys - {name} + {c.name}
    ensures out.1.Pass? ==>
              var prev, ids := r.list[name].ids, Check(lib, c).value.ids;
              && (forall i :: 0 <= i < |ids| ==> ids[i] in out.0.idIndex && out.0.idIndex[ids[i]] == c.name)
              && (forall id :: id in prev && id !in ids ==> id !in out.0.idIndex)
              && (forall id :: id in out.0.idIndex <==> id in ids || (id in r.idIndex && id !in prev))
              && (forall id :: id in r.idIndex && id !in prev && id !in ids ==> out.0.idIndex[id] == r.idIndex[id])
  {
    match Check(lib, c)
    case Failure(e) => (r, Fail(e))
    case Success(n) => Replace(r, name, n)
  }

  /** `Update` once `check` has accepted the client as `n`: the lookup, the
      name clash and the ID clash tests, then the refiling. */
  function Replace(r: Registry, name: string, n: Client): (out: (Registry, Outcome<Error>))
    requires Valid(r)
    ensures out.1.Fail? ==> out.0 == r
    ensures name !in r.list ==> out.1 == Fail(NotFound)
    ensures name in r.list && r.list[name].name != n.name && n.name in r.list ==> out.1 == Fail(AlreadyExists)
    ensures out.1.Pass? <==>
              && name in r.list
              && (n.name != name ==> n.name !in r.list)
              && (r.list[name].ids != n.ids ==>
                    forall i :: 0 <= i < |n.ids| ==> !Foreign(r.idIndex, n.ids[i], Some(name)))
    ensures out.1.Pass? ==> (name in r.list && (n.name == name || n.name !in r.list)
                             && out.0 == Refile(r, name, n))
  {
    if name !in r.list then (r, Fail(NotFound))
    else
      var prev := r.list[name];
      if prev.name != n.name && n.name in r.list then (r, Fail(AlreadyExists))
      else
        var clash := if prev.ids == n.ids then None else FirstForeign(n.ids, r.idIndex, Some(prev.name));
        if clash.Some? then
          var id := n.ids[clash.value];
          (r, Fail(DuplicateID(id, r.idIndex[id])))
        else
          NoClash(r, name, n.ids);
          (Refile(r, name, n), Pass)
  }

  /** The successful end of `Update`: the client filed as `name` is
      replaced by `n`, filed under `n`'s name, and the ID index follows. */
  function Refile(r: Registry, name: string, n: Client): (r': Registry)
    requires Valid(r) && name in r.list
    requires n.name == name || n.name !in r.list
    requires forall id :: id in n.ids && id in r.idIndex ==> r.idIndex[id] == name
    ensures r'.ipHost == r.ipHost
    ensures n.name in r'.list && r'.list[n.name] == n
    ensures r'.list.Keys == r.list.Keys - {name} + {n.name}
    ensures forall m :: m in r.list && m != name ==> m in r'.list && r'.list[m] == r.list[m]
    ensures r'.idIndex == Reindex(r, name, n.ids, n.name)
  {
    var index := Reindex(r, name, n.ids, n.name);
    if name != n.name then Registry((r.list - {name})[n.name := n], index, r.ipHost)
    else Registry(r.list[name := n], index, r.ipHost)
  }

  /** When `Update` finds no clash, every new ID that is indexed at all is
      indexed to the client being updated. */
  lemma NoClash(r: Registry, name: string, ids: seq<string>)
    requires Valid(r) && name in r.list
    requires r.list[name].ids == ids || FirstForeign(ids, r.idIndex, Some(name)).None?
    ensures forall id :: id in ids && id in r.idIndex ==> r.idIndex[id] == name
  {
    forall id | id in ids && id in r.idIndex
      ensures r.idIndex[id] == name
    {
      var k :| 0 <= k < |ids| && ids[k] == id;
      if r.list[name].ids != ids {
        assert !Foreign(r.idIndex, ids[k], Some(name));
      }
    }
  }

  /** The ID index after a successful `Update` of the client filed under
      `name`: when the IDs change, the old ones are dropped and the new ones
      indexed to the client; when the name changes, the client's entries
      follow it to `newName`. */
  function Reindex(r: Registry, name: string, ids: seq<string>, newName: string): (index: map<string, string>)
    requires Valid(r) && name in r.list
    requires forall id :: id in ids && id in r.idIndex ==> r.idIndex[id] == name
    ensures forall i :: 0 <= i < |ids| ==> ids[i] in index && index[ids[i]] == newName
    ensures forall id :: id in index <==> id in ids || (id in r.idIndex && id !in r.list[name].ids)
    ensures forall id :: id in r.idIndex && id !in r.list[name].ids && id !in ids ==> index[id] == r.idIndex[id]
  {
    var prev := r.list[name].ids;
    var moved := if prev == ids then r.idIndex else IndexIDs(WithoutIDs(r.idIndex, prev), ids, name);
    if name != newName then RenameOwner(moved, name, newName) else moved
  }

  // ---------------------------------------------------------------------------
  // SetWhoisInfo, AddHost, Exists, Find, FindAutoClient

  /** `SetWhoisInfo`: stores WHOIS information on the client owning `ip`, or
      else on the auto-client for `ip`, or else on a new auto-client with no
      hostname whose source is WHOIS. */
  function SetWhoisInfo(r: Registry, ip: string, info: WhoisInfo): (r': Registry)
    requires Valid(r)
    ensures r'.list.Keys == r.list.Keys && r'.idIndex == r.idIndex
    ensures ip in r.idIndex ==> r'.ipHost == r.ipHost
                                && r'.list[r.idIndex[ip]] == r.list[r.idIndex[ip]].(whoisInfo := info)
    ensures ip !in r.idIndex ==> r'.list == r.list && ip in r'.ipHost && r'.ipHost[ip].whoisInfo == info
    ensures ip !in r.idIndex && ip in r.ipHost ==> r'.ipHost[ip] == r.ipHost[ip].(whoisInfo := info)
    ensures ip !in r.idIndex && ip !in r.ipHost ==> r'.ipHost[ip] == ClientHost([], Whois, info)
    ensures forall n :: n in r.list && (ip !in r.idIndex || n != r.idIndex[ip]) ==> r'.list[n] == r.list[n]
    ensures forall h :: h in r.ipHost && h != ip ==> h in r'.ipHost && r'.ipHost[h] == r.ipHost[h]
    ensures Valid(r') && (Disjoint(r) ==> Disjoint(r'))
  {
    if ip in r.idIndex then
      var owner := r.idIndex[ip];
      r.(list := r.list[owner := r.list[owner].(whoisInfo := info)])
    else if ip in r.ipHost then
      r.(ipHost := r.ipHost[ip := r.ipHost[ip].(whoisInfo := info)])
    else
      r.(ipHost := r.ipHost[ip := ClientHost([], Whois, info)])
  }

  /** Why `AddHost` refuses a pair: the IP is a client ID, or its auto-client
      came from a source of higher priority. */
  predicate HostRefused(r: Registry, ip: string, source: Source) {
    ip in r.idIndex || (ip in r.ipHost && Above(r.ipHost[ip].source, source))
  }

  /** `AddHost` as written: refuses a client ID and an auto-client from a
      stronger source; for an existing auto-client it records the new source
      but keeps the old hostname; otherwise adds a new auto-client. */
  function AddHost(r: Registry, ip: string, host: string, source: Source): (out: (Registry, bool))
    ensures out.1 <==> !HostRefused(r, ip, source)
    ensures !out.1 ==> out.0 == r
    ensures out.0.list == r.list && out.0.idIndex == r.idIndex
    ensures out.1 ==> ip in out.0.ipHost && out.0.ipHost[ip].source == source
    ensures out.1 && ip !in r.ipHost ==> out.0.ipHost[ip] == ClientHost(host, source, [])
    ensures out.1 && ip in r.ipHost ==> out.0.ipHost[ip] == r.ipHost[ip].(source := source)
    ensures forall h :: h in r.ipHost && h != ip ==> h in out.0.ipHost && out.0.ipHost[h] == r.ipHost[h]
    ensures out.0.ipHost.Keys <= r.ipHost.Keys + {ip}
    ensures Valid(r) ==> Valid(out.0)
    ensures Disjoint(r) ==> Disjoint(out.0)
  {
    if ip in r.idIndex then (r, false)
    else if ip in r.ipHost && Above(r.ipHost[ip].source, source) then (r, false)
    else if ip in r.ipHost then (r.(ipHost := r.ipHost[ip := r.ipHost[ip].(source := source)]), true)
    else (r.(ipHost := r.ipHost[ip := ClientHost(host, source, [])]), true)
  }

  /** `AddHost` as its comment describes it: an accepted pair overwrites
      the hostname as well as the source, and keeps the WHOIS information. */
  function AddHostCorrected(r: Registry, ip: string, host: string, source: Source): (out: (Registry, bool))
    ensures out.1 <==> !HostRefused(r, ip, source)
    ensures !out.1 ==> out.0 == r
    ensures out.0.list == r.list && out.0.idIndex == r.idIndex
    ensures out.1 ==> ip in out.0.ipHost && out.0.ipHost[ip].host == host && out.0.ipHost[ip].source == source
    ensures out.1 && ip in r.ipHost ==> out.0.ipHost[ip].whoisInfo == r.ipHost[ip].whoisInfo
    ensures forall h :: h in r.ipHost && h != ip ==> h in out.0.ipHost && out.0.ipHost[h] == r.ipHost[h]
    ensures out.0.ipHost.Keys <= r.ipHost.Keys + {ip}
    ensures Valid(r) ==> Valid(out.0)
    ensures Disjoint(r) ==> Disjoint(out.0)
  {
    if ip in r.idIndex then (r, false)
    else if ip in r.ipHost && Above(r.ipHost[ip].source, source) then (r, false)
    else if ip in r.ipHost then (r.(ipHost := r.ipHost[ip := r.ipHost[ip].(host := host, source := source)]), true)
    else (r.(ipHost := r.ipHost[ip := ClientHost(host, source, [])]), true)
  }

  /** `Exists`: the IP is a client ID, or an auto-client whose source is at
      least as strong as `source`. */
  function Exists(r: Registry, ip: string, source: Source): (b: bool)
    ensures ip in r.idIndex ==> b
    ensures ip !in r.idIndex && ip !in r.ipHost ==> !b
    ensures ip !in r.idIndex && ip in r.ipHost ==> (b <==> !Above(source, r.ipHost[ip].source))
  {
    if ip in r.idIndex then true
    else if ip !in r.ipHost then false
    else !Above(source, r.ipHost[ip].source)
  }

  /** The exact-match part of `Find`: nothing for text that is not an IP
      address, otherwise the client that has `ip` as one of its IDs. */
  function FindExact(lib: Library, r: Registry, ip: string): (found: Option<Client>)
    requires Valid(r)
    ensures lib.parseIP(ip).None? ==> found.None?
    ensures found.Some? <==> lib.parseIP(ip).Some? && ip in r.idIndex
    ensures found.Some? ==> found.value in r.list.Values && ip in found.value.ids
  {
    if lib.parseIP(ip).None? then None
    else if ip in r.idIndex then Some(r.list[r.idIndex[ip]])
    else None
  }

  /** `FindAutoClient`: nothing for text that is not an IP address,
      otherwise the auto-client for `ip`, if any. */
  function FindAutoClient(lib: Library, r: Registry, ip: string): (found: Option<ClientHost>)
    ensures found.Some? <==> lib.parseIP(ip).Some? && ip in r.ipHost
    ensures found.Some? ==> found.value == r.ipHost[ip]
  {
    if lib.parseIP(ip).Some? && ip in r.ipHost then Some(r.ipHost[ip]) else None
  }
}
