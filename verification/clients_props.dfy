/** What the client registry's operations promise together: each keeps the
    registry consistent, a client added or updated is found by its IDs, and
    a deletion undoes an addition. */
module ClientsProps {
  import opened Results
  import opened Net
  import opened Clients

  /** `check` keeps the client's name and its upstreams. */
  lemma CheckKeepsName(lib: Library, c: Client)
    requires Check(lib, c).Success?
    ensures Check(lib, c).value.name == c.name
    ensures Check(lib, c).value.upstreams == c.upstreams
  {
    assert Check(lib, c).value.(ids := c.ids) == c;
  }

  /** What a successful `Add` does, spelled out over the maps. */
  lemma AddShape(lib: Library, r: Registry, c: Client)
    requires Add(lib, r, c).1 == Success(true)
    ensures c.name !in r.list && c.name in Add(lib, r, c).0.list
    ensures var s := Add(lib, r, c).0.list[c.name];
            && s.name == c.name && s.ids == Check(lib, c).value.ids
            && (forall id :: id in s.ids ==> id !in r.idIndex)
            && Add(lib, r, c).0 == Registry(r.list[c.name := s], IndexIDs(r.idIndex, s.ids, c.name),
                                            WithoutIDs(r.ipHost, s.ids))
  {
    CheckKeepsName(lib, c);
    var n := Check(lib, c).value;
    var stored := n.(whoisInfo := InheritWhois(n.whoisInfo, n.ids, r.ipHost));
    AddFiles(lib, r, c, n);
    assert Add(lib, r, c).0.list[c.name] == stored;
    assert stored.ids == n.ids && n.name == c.name;
    forall id | id in n.ids
      ensures id !in r.idIndex
    {
      var k :| 0 <= k < |n.ids| && n.ids[k] == id;
    }
  }

  /** The registry a successful `Add` leaves, spelled out. */
  lemma AddFiles(lib: Library, r: Registry, c: Client, n: Client)
    requires Add(lib, r, c).1 == Success(true) && Check(lib, c) == Success(n)
    ensures Add(lib, r, c).0
            == Registry(r.list[n.name := n.(whoisInfo := InheritWhois(n.whoisInfo, n.ids, r.ipHost))],
                        IndexIDs(r.idIndex, n.ids, n.name), WithoutIDs(r.ipHost, n.ids))
  {
    assert n.name == c.name && n.name !in r.list;
    assert FirstForeign(n.ids, r.idIndex, None).None?;
  }

  /** Filing a new client under a free name, with IDs nobody owns, keeps
      the list and the ID index consistent. */
  lemma InsertKeepsValid(r: Registry, s: Client, hosts: map<string, ClientHost>)
    requires Valid(r)
    requires s.name !in r.list
    requires forall id :: id in s.ids ==> id !in r.idIndex
    ensures Valid(Registry(r.list[s.name := s], IndexIDs(r.idIndex, s.ids, s.name), hosts))
  {
    var list := r.list[s.name := s];
    var index := IndexIDs(r.idIndex, s.ids, s.name);
    forall m | m in list
      ensures list[m].name == m
    {
      if m != s.name {
        assert list[m] == r.list[m];
      }
    }
    forall id | id in index
      ensures index[id] in list && id in list[index[id]].ids
    {
      if id !in s.ids {
        var o := r.idIndex[id];
        assert index[id] == o && o in r.list && id in r.list[o].ids;
        assert o != s.name && list[o] == r.list[o];
      }
    }
    forall m, id | m in list && id in list[m].ids
      ensures id in index && index[id] == m
    {
      if m != s.name {
        assert list[m] == r.list[m];
        assert id in r.idIndex && r.idIndex[id] == m;
        assert id !in s.ids;
      }
    }
  }

  /** Adding keeps the registry consistent, and keeps client IDs apart from
      auto-clients. */
  lemma AddKeepsValid(lib: Library, r: Registry, c: Client)
    requires Valid(r)
    ensures Valid(Add(lib, r, c).0)
    ensures Disjoint(r) ==> Disjoint(Add(lib, r, c).0)
  {
    if Add(lib, r, c).1 == Success(true) {
      AddShape(lib, r, c);
      var s := Add(lib, r, c).0.list[c.name];
      InsertKeepsValid(r, s, WithoutIDs(r.ipHost, s.ids));
    }
  }

  /** After a successful `Add`, `Find` by any of the new client's IP IDs
      returns the new client, and the auto-client for that IP is gone. */
  lemma AddThenFind(lib: Library, r: Registry, c: Client, ip: string)
    requires Valid(r)
    requires Add(lib, r, c).1 == Success(true)
    requires ip in Check(lib, c).value.ids && lib.parseIP(ip).Some?
    ensures Valid(Add(lib, r, c).0)
    ensures FindExact(lib, Add(lib, r, c).0, ip) == Some(Add(lib, r, c).0.list[c.name])
    ensures FindAutoClient(lib, Add(lib, r, c).0, ip).None?
  {
    AddKeepsValid(lib, r, c);
    AddShape(lib, r, c);
  }

  /** Removing IDs nobody owned, right after filing them, gives back the
      index as it was. */
  lemma UnindexAfterIndex(index: map<string, string>, ids: seq<string>, owner: string)
    requires forall id :: id in ids ==> id !in index
    ensures WithoutIDs(IndexIDs(index, ids, owner), ids) == index
  {
    var back := WithoutIDs(IndexIDs(index, ids, owner), ids);
    assert back.Keys == index.Keys;
  }

  /** Deleting a client just added restores the client list and the ID
      index; the auto-clients it absorbed stay removed. */
  lemma AddThenDel(lib: Library, r: Registry, c: Client)
    requires Valid(r)
    requires Add(lib, r, c).1 == Success(true)
    ensures Del(Add(lib, r, c).0, c.name).1
    ensures Del(Add(lib, r, c).0, c.name).0
            == Registry(r.list, r.idIndex, Add(lib, r, c).0.ipHost)
  {
    AddShape(lib, r, c);
    var r' := Add(lib, r, c).0;
    var s := r'.list[c.name];
    assert r'.idIndex == IndexIDs(r.idIndex, s.ids, c.name);
    UnindexAfterIndex(r.idIndex, s.ids, c.name);
    RemoveAdded(r.list, c.name, s);
    DelFrom(r', c.name);
  }

  /** What a `Del` of a filed client does, spelled out over the maps. */
  lemma DelFrom(r: Registry, name: string)
    requires name in r.list
    ensures Del(r, name) == (Registry(r.list - {name}, WithoutIDs(r.idIndex, r.list[name].ids), r.ipHost), true)
  {
    var out := Del(r, name);
    assert out.1;
    assert out.0.list == r.list - {name};
    assert out.0.idIndex == WithoutIDs(r.idIndex, r.list[name].ids);
  }

  /** Deleting keeps the registry consistent, and keeps client IDs apart
      from auto-clients. */
  lemma DelKeepsValid(r: Registry, name: string)
    requires Valid(r)
    ensures Valid(Del(r, name).0)
    ensures Disjoint(r) ==> Disjoint(Del(r, name).0)
  {
    var r' := Del(r, name).0;
    if name in r.list {
      DelFrom(r, name);
      var gone := r.list[name].ids;
      forall id | id in r'.idIndex
        ensures r'.idIndex[id] in r'.list && id in r'.list[r'.idIndex[id]].ids
      {
        var o := r.idIndex[id];
        assert id !in gone && r'.idIndex[id] == o;
        assert o in r.list && id in r.list[o].ids;
        assert o != name && r'.list[o] == r.list[o];
      }
      forall m, id | m in r'.list && id in r'.list[m].ids
        ensures id in r'.idIndex && r'.idIndex[id] == m
      {
        assert m != name && r'.list[m] == r.list[m];
        assert id in r.idIndex && r.idIndex[id] == m;
        assert id !in gone;
      }
    }
  }

  /** What a successful `Update` does, spelled out over the maps: the
      client filed under `name` is replaced by the normalized `c`, whose
      IDs are free or already its own, and the index is rebuilt when the
      IDs change. */
  lemma UpdateShape(lib: Library, r: Registry, name: string, c: Client)
    requires Valid(r)
    requires Update(lib, r, name, c).1.Pass?
    ensures var n := Check(lib, c).value;
            var prev := r.list[name];
            var index := if prev.ids == n.ids then r.idIndex
                         else IndexIDs(WithoutIDs(r.idIndex, prev.ids), n.ids, name);
            && prev.name == name && n.name == c.name
            && (prev.ids != n.ids ==> forall id :: id in n.ids && id in r.idIndex ==> r.idIndex[id] == name)
            && (name != c.name ==> c.name !in r.list)
            && (name != c.name ==> Update(lib, r, name, c).0
                                   == Registry((r.list - {name})[c.name := n], RenameOwner(index, name, c.name), r.ipHost))
            && (name == c.name ==> Update(lib, r, name, c).0 == Registry(r.list[name := n], index, r.ipHost))
  {
    CheckKeepsName(lib, c);
    var n := Check(lib, c).value;
    var prev := r.list[name];
    if prev.ids != n.ids {
      forall id | id in n.ids && id in r.idIndex
        ensures r.idIndex[id] == name
      {
        var k :| 0 <= k < |n.ids| && n.ids[k] == id;
        assert !Foreign(r.idIndex, n.ids[k], Some(name));
      }
    }
  }

  /** Replacing the client filed under `name` by one with the same name,
      whose IDs are free or its own, and re-indexing when the IDs change,
      keeps the list and the ID index consistent. */
  lemma ReplaceKeepsValid(r: Registry, name: string, n: Client)
    requires Valid(r) && name in r.list && n.name == name
    requires forall id :: id in n.ids && id in r.idIndex ==> r.idIndex[id] == name
    ensures var index := if r.list[name].ids == n.ids then r.idIndex
                         else IndexIDs(WithoutIDs(r.idIndex, r.list[name].ids), n.ids, name);
            Valid(Registry(r.list[name := n], index, r.ipHost))
  {
    var prev := r.list[name];
    var list := r.list[name := n];
    var index := if prev.ids == n.ids then r.idIndex
                 else IndexIDs(WithoutIDs(r.idIndex, prev.ids), n.ids, name);
    forall m | m in list
      ensures list[m].name == m
    {
      if m != name {
        assert list[m] == r.list[m];
      }
    }
    ReplaceIndexAgrees(r, name, n);
  }

  /** Both halves of the ID index's agreement with the list, after `Replace`. */
  lemma ReplaceIndexAgrees(r: Registry, name: string, n: Client)
    requires Valid(r) && name in r.list
    requires forall id :: id in n.ids && id in r.idIndex ==> r.idIndex[id] == name
    ensures var list := r.list[name := n];
            var index := if r.list[name].ids == n.ids then r.idIndex
                         else IndexIDs(WithoutIDs(r.idIndex, r.list[name].ids), n.ids, name);
            && (forall id :: id in index ==> index[id] in list && id in list[index[id]].ids)
            && (forall m, id :: m in list && id in list[m].ids ==> id in index && index[id] == m)
  {
    var list := r.list[name := n];
    var index := if r.list[name].ids == n.ids then r.idIndex
                 else IndexIDs(WithoutIDs(r.idIndex, r.list[name].ids), n.ids, name);
    forall id | id in index
      ensures index[id] in list && id in list[index[id]].ids
    {
      ReplaceIndexSound(r, name, n, id);
    }
    forall m, id | m in list && id in list[m].ids
      ensures id in index && index[id] == m
    {
      ReplaceIndexComplete(r, name, n, m, id);
    }
  }

  lemma ReplaceIndexSound(r: Registry, name: string, n: Client, id: string)
    requires Valid(r) && name in r.list
    requires forall id :: id in n.ids && id in r.idIndex ==> r.idIndex[id] == name
    ensures var list := r.list[name := n];
            var index := if r.list[name].ids == n.ids then r.idIndex
                         else IndexIDs(WithoutIDs(r.idIndex, r.list[name].ids), n.ids, name);
            id in index ==> index[id] in list && id in list[index[id]].ids
  {
    var prev := r.list[name];
    var list := r.list[name := n];
    if prev.ids == n.ids {
      if id in r.idIndex {
        var o := r.idIndex[id];
        assert o in r.list && id in r.list[o].ids;
        if o != name {
          assert list[o] == r.list[o];
        }
      }
    } else {
      var index := IndexIDs(WithoutIDs(r.idIndex, prev.ids), n.ids, name);
      if id in index && id !in n.ids {
        var o := r.idIndex[id];
        assert index[id] == o;
        assert o in r.list && id in r.list[o].ids;
        assert id in r.list[o].ids && id !in r.list[name].ids;
        assert o != name;
        assert list[o] == r.list[o];
      }
    }
  }

  lemma ReplaceIndexComplete(r: Registry, name: string, n: Client, m: string, id: string)
    requires Valid(r) && name in r.list
    requires forall id :: id in n.ids && id in r.idIndex ==> r.idIndex[id] == name
    ensures var list := r.list[name := n];
            var index := if r.list[name].ids == n.ids then r.idIndex
                         else IndexIDs(WithoutIDs(r.idIndex, r.list[name].ids), n.ids, name);
            m in list && id in list[m].ids ==> id in index && index[id] == m
  {
    var prev := r.list[name];
    var list := r.list[name := n];
    if m in list && id in list[m].ids {
      if m == name {
        assert id in n.ids;
        if prev.ids == n.ids {
          assert id in prev.ids;
        }
      } else {
        assert list[m] == r.list[m];
        assert id in r.idIndex && r.idIndex[id] == m;
        if prev.ids != n.ids {
          assert id !in n.ids;
          assert r.idIndex[id] != name;
          assert id !in prev.ids;
        }
      }
    }
  }

  /** Renaming a client, with its index entries following it, keeps the
      list and the ID index consistent. */
  lemma RenameKeepsValid(r: Registry, name: string, n: Client)
    requires Valid(r) && name in r.list && r.list[name].name == name
    requires n.name !in r.list && n.ids == r.list[name].ids
    ensures Valid(Registry((r.list - {name})[n.name := n], RenameOwner(r.idIndex, name, n.name), r.ipHost))
  {
    var list := (r.list - {name})[n.name := n];
    var index := RenameOwner(r.idIndex, name, n.name);
    forall m | m in list
      ensures list[m].name == m
    {
      if m != n.name {
        assert m in r.list && list[m] == r.list[m];
      }
    }
    RenameIndexSound(r, name, n);
    RenameIndexComplete(r, name, n);
  }

  /** After a rename, every indexed ID points at a client that lists it. */
  lemma RenameIndexSound(r: Registry, name: string, n: Client)
    requires Valid(r) && name in r.list && r.list[name].name == name
    requires n.name !in r.list && n.ids == r.list[name].ids
    ensures var list, index := (r.list - {name})[n.name := n], RenameOwner(r.idIndex, name, n.name);
            forall id :: id in index ==> index[id] in list && id in list[index[id]].ids
  {
    var list := (r.list - {name})[n.name := n];
    var index := RenameOwner(r.idIndex, name, n.name);
    forall id | id in index
      ensures index[id] in list && id in list[index[id]].ids
    {
      var o := r.idIndex[id];
      assert o in r.list && id in r.list[o].ids;
      if o != name {
        assert o != n.name;
        assert index[id] == o && list[o] == r.list[o];
      } else {
        assert index[id] == n.name && list[n.name] == n;
      }
    }
  }

  /** After a rename, every ID a client lists is indexed to it. */
  lemma RenameIndexComplete(r: Registry, name: string, n: Client)
    requires Valid(r) && name in r.list && r.list[name].name == name
    requires n.name !in r.list && n.ids == r.list[name].ids
    ensures var list, index := (r.list - {name})[n.name := n], RenameOwner(r.idIndex, name, n.name);
            forall m, id :: m in list && id in list[m].ids ==> id in index && index[id] == m
  {
    var list := (r.list - {name})[n.name := n];
    var index := RenameOwner(r.idIndex, name, n.name);
    forall m, id | m in list && id in list[m].ids
      ensures id in index && index[id] == m
    {
      if m != n.name {
        assert m in r.list && m != name && list[m] == r.list[m];
        assert id in r.idIndex && r.idIndex[id] == m;
      } else {
        assert id in r.list[name].ids;
        assert id in r.idIndex && r.idIndex[id] == name;
      }
    }
  }

  /** The registry a successful `Update` builds is consistent. */
  lemma UpdatedValid(r: Registry, name: string, n: Client)
    requires Valid(r) && name in r.list
    requires forall id :: id in n.ids && id in r.idIndex ==> r.idIndex[id] == name
    requires n.name != name ==> n.name !in r.list
    ensures var prev := r.list[name];
            var index := if prev.ids == n.ids then r.idIndex
                         else IndexIDs(WithoutIDs(r.idIndex, prev.ids), n.ids, name);
            && (name != n.name ==> Valid(Registry((r.list - {name})[n.name := n],
                                                  RenameOwner(index, name, n.name), r.ipHost)))
            && (name == n.name ==> Valid(Registry(r.list[name := n], index, r.ipHost)))
  {
    var prev := r.list[name];
    var index := if prev.ids == n.ids then r.idIndex
                 else IndexIDs(WithoutIDs(r.idIndex, prev.ids), n.ids, name);
    var n' := n.(name := name);
    assert n'.ids == n.ids && n'.name == name;
    ReplaceKeepsValid(r, name, n');
    if name != n.name {
      var mid := Registry(r.list[name := n'], index, r.ipHost);
      assert mid.list[name] == n';
      RenameKeepsValid(mid, name, n);
      RemoveUpdated(r.list, name, n');
    } else {
      assert n' == n;
    }
  }

  /** Removing a key just added gives back the map. */
  lemma RemoveAdded<K, V>(m: map<K, V>, k: K, v: V)
    requires k !in m
    ensures m[k := v] - {k} == m
  {
  }

  /** Removing a key just updated removes the old entry as well. */
  lemma RemoveUpdated<K, V>(m: map<K, V>, k: K, v: V)
    ensures m[k := v] - {k} == m - {k}
  {
  }

  /** Updating keeps the registry consistent. */
  lemma UpdateKeepsValid(lib: Library, r: Registry, name: string, c: Client)
    requires Valid(r)
    ensures Valid(Update(lib, r, name, c).0)
  {
    if Update(lib, r, name, c).1.Pass? {
      UpdateShape(lib, r, name, c);
      UpdatedValid(r, name, Check(lib, c).value);
    }
  }

  /** After a successful `Update`, `Find` by any of the new IP IDs returns
      the new client. */
  lemma UpdateThenFind(lib: Library, r: Registry, name: string, c: Client, ip: string)
    requires Valid(r)
    requires Update(lib, r, name, c).1.Pass?
    requires ip in Check(lib, c).value.ids && lib.parseIP(ip).Some?
    ensures Valid(Update(lib, r, name, c).0)
    ensures FindExact(lib, Update(lib, r, name, c).0, ip) == Some(Check(lib, c).value)
  {
    UpdateKeepsValid(lib, r, name, c);
    CheckKeepsName(lib, c);
    var r' := Update(lib, r, name, c).0;
    assert c.name in r'.list && ip in r'.list[c.name].ids;
  }

  /** An address library under which every ID is a MAC address, so `check`
      keeps IDs as written. */
  function MacOnly(): (lib: Library)
    ensures forall s :: lib.parseIP(s).None? && lib.isMAC(s)
  {
    Library(s => None, ip => [], s => false, s => true, u => true)
  }

  /** A client named "a" with the given IDs and default settings. */
  function ClientA(ids: seq<string>): (c: Client)
    ensures c.name == "a" && c.ids == ids
  {
    Client(ids, "a", false, false, false, false, false, [], false, [], [])
  }

  /** Unlike `Add`, `Update` does not drop the auto-clients of the IDs it
      gives a client: one update leaves "y" both a client ID and an
      auto-client. */
  lemma UpdateCanOverlapAutoClient()
    ensures var r := Registry(map["a" := ClientA(["x"])], map["x" := "a"], map["y" := ClientHost("h", Arp, [])]);
            && Valid(r) && Disjoint(r)
            && Update(MacOnly(), r, "a", ClientA(["y"])).1 == Pass
            && !Disjoint(Update(MacOnly(), r, "a", ClientA(["y"])).0)
  {
    var r := Registry(map["a" := ClientA(["x"])], map["x" := "a"], map["y" := ClientHost("h", Arp, [])]);
    assert ValidID(MacOnly(), "y") && NormalizeID(MacOnly(), "y") == "y";
    var ids := NormalizeIDs(MacOnly(), ["y"]);
    assert ids.Success? && |ids.value| == 1 && ids.value[0] == "y";
    assert ids.value == ["y"];
    assert Check(MacOnly(), ClientA(["y"])) == Success(ClientA(["y"]));
    assert FirstForeign(["y"], r.idIndex, Some("a")) == None;
    var r' := Update(MacOnly(), r, "a", ClientA(["y"])).0;
    assert "y" in r'.idIndex && "y" in r'.ipHost;
  }

  /** `SetWhoisInfo` then `Find` or `FindAutoClient` returns the stored
      information. */
  lemma SetWhoisThenFind(lib: Library, r: Registry, ip: string, info: WhoisInfo)
    requires Valid(r) && lib.parseIP(ip).Some?
    ensures ip in r.idIndex ==> FindExact(lib, SetWhoisInfo(r, ip, info), ip).Some?
                                && FindExact(lib, SetWhoisInfo(r, ip, info), ip).value.whoisInfo == info
    ensures ip !in r.idIndex ==> FindAutoClient(lib, SetWhoisInfo(r, ip, info), ip).Some?
                                 && FindAutoClient(lib, SetWhoisInfo(r, ip, info), ip).value.whoisInfo == info
  {
  }

  /** `Exists` and `AddHost` agree: a pair whose IP does not exist for its
      source is accepted, and an accepted pair exists afterwards. */
  lemma AddHostVersusExists(r: Registry, ip: string, host: string, source: Source)
    ensures !Exists(r, ip, source) ==> AddHost(r, ip, host, source).1
    ensures AddHost(r, ip, host, source).1 ==> Exists(AddHost(r, ip, host, source).0, ip, source)
    ensures AddHost(r, ip, host, source).1 ==> !Exists(r, ip, source) || ip in r.ipHost
  {
  }

  /** The declared values, not the comment above them, rank the sources: a
      DHCP name cannot replace an ARP name for the same IP, while an ARP
      name does replace a DHCP one. */
  lemma ArpOutranksDhcp(r: Registry, ip: string, host: string)
    requires ip !in r.idIndex && ip in r.ipHost
    ensures r.ipHost[ip].source == Arp ==> AddHost(r, ip, host, Dhcp) == (r, false)
    ensures r.ipHost[ip].source == Dhcp ==> AddHost(r, ip, host, Arp).1
  {
  }

  /** The stale hostname: an ARP name for an IP, then an /etc/hosts name
      for the same IP, leaves the ARP name in place under the hosts-file
      source. */
  lemma AddHostKeepsStaleHost()
    ensures var r := Registry(map[], map[], map["10.0.0.1" := ClientHost("laptop", Arp, [])]);
            var out := AddHost(r, "10.0.0.1", "desktop", HostsFile);
            && out.1
            && out.0.ipHost["10.0.0.1"] == ClientHost("laptop", HostsFile, [])
  {
  }

  /** With the correction, an accepted pair is what `FindAutoClient`
      returns afterwards. */
  lemma AddHostCorrectedThenFind(lib: Library, r: Registry, ip: string, host: string, source: Source)
    requires lib.parseIP(ip).Some?
    requires AddHostCorrected(r, ip, host, source).1
    ensures FindAutoClient(lib, AddHostCorrected(r, ip, host, source).0, ip).Some?
    ensures FindAutoClient(lib, AddHostCorrected(r, ip, host, source).0, ip).value.host == host
    ensures FindAutoClient(lib, AddHostCorrected(r, ip, host, source).0, ip).value.source == source
  {
  }

  /** When the canonical spelling of an address reads back as an address
      with the same spelling, `check` is idempotent. */
  lemma CheckIdempotent(lib: Library, c: Client)
    requires forall ip :: lib.parseIP(lib.formatIP(ip)).Some?
                          && lib.formatIP(lib.parseIP(lib.formatIP(ip)).value) == lib.formatIP(ip)
    requires Check(lib, c).Success?
    ensures Check(lib, Check(lib, c).value) == Check(lib, c)
  {
    var n := Check(lib, c).value;
    CheckKeepsName(lib, c);
    forall i | 0 <= i < |n.ids|
      ensures ValidID(lib, n.ids[i]) && NormalizeID(lib, n.ids[i]) == n.ids[i]
    {
      if lib.parseIP(c.ids[i]).Some? {
        var ip := lib.parseIP(c.ids[i]).value;
        assert n.ids[i] == lib.formatIP(ip);
      }
    }
    assert Acceptable(lib, n);
    var m := Check(lib, n).value;
    assert m.ids == n.ids;
  }
}
