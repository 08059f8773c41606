/**
 * The managed network interface. Its state is what `netifaces.ifaddresses(dev)`
 * reports: for each address family, a list of entries (dictionaries whose "addr" key,
 * when present, holds the address text). The shell commands the source hands to
 * `os.system` are recorded in `log` and take effect on the table at once.
 */
module Iface {
  import opened Ipv4

  /** The `netifaces` key of the IPv4 family on Linux. */
  const AF_INET: int := 2

  datatype Family = Family(family: int, entries: seq<map<string, string>>)

  /** `ip address add <address><netmask> dev <name>` and `ip address del ...`. */
  datatype Command = Add(address: string, netmask: string) | Del(address: string, netmask: string)

  predicate HasAddr(entry: map<string, string>, x: string)
  {
    "addr" in entry && entry["addr"] == x
  }

  // ---------------------------------------------------------------------------
  // Reading the table

  /** The "addr" values of a family's entries, in order. */
  function EntryAddrs(entries: seq<map<string, string>>): seq<string>
  {
    if entries == [] then []
    else (if "addr" in entries[0] then [entries[0]["addr"]] else []) + EntryAddrs(entries[1..])
  }

  /** The "addr" values of every family, in the order the source visits them. */
  function AddrValues(table: seq<Family>): seq<string>
  {
    if table == [] then [] else EntryAddrs(table[0].entries) + AddrValues(table[1..])
  }

  function AddressSet(table: seq<Family>): set<string>
  {
    set x | x in AddrValues(table)
  }

  lemma {:induction false} EntryAddrsAppend(a: seq<map<string, string>>, b: seq<map<string, string>>)
    ensures EntryAddrs(a + b) == EntryAddrs(a) + EntryAddrs(b)
  {
    if a != [] {
      assert (a + b)[1..] == a[1..] + b;
      EntryAddrsAppend(a[1..], b);
    } else {
      assert a + b == b;
    }
  }

  lemma {:induction false} AddrValuesAppend(a: seq<Family>, b: seq<Family>)
    ensures AddrValues(a + b) == AddrValues(a) + AddrValues(b)
  {
    if a != [] {
      assert (a + b)[1..] == a[1..] + b;
      AddrValuesAppend(a[1..], b);
    } else {
      assert a + b == b;
    }
  }

  lemma {:induction false} EntryAddrsMembers(entries: seq<map<string, string>>, x: string)
    ensures x in EntryAddrs(entries) <==> exists j | 0 <= j < |entries| :: HasAddr(entries[j], x)
  {
    if entries != [] {
      EntryAddrsMembers(entries[1..], x);
      if exists j | 0 <= j < |entries[1..]| :: HasAddr(entries[1..][j], x) {
        var j :| 0 <= j < |entries[1..]| && HasAddr(entries[1..][j], x);
        assert entries[j + 1] == entries[1..][j];
      }
      if exists j | 0 <= j < |entries| :: HasAddr(entries[j], x) {
        var j :| 0 <= j < |entries| && HasAddr(entries[j], x);
        if j > 0 { assert entries[1..][j - 1] == entries[j]; }
      }
    }
  }

  /** An address is on the table exactly when some entry of some family carries it as "addr". */
  lemma {:induction false} AddrValuesMembers(table: seq<Family>, x: string)
    ensures x in AddrValues(table) <==>
      exists i, j | 0 <= i < |table| && 0 <= j < |table[i].entries| :: HasAddr(table[i].entries[j], x)
  {
    if table != [] {
      AddrValuesMembers(table[1..], x);
      EntryAddrsMembers(table[0].entries, x);
      if exists i, j | 0 <= i < |table[1..]| && 0 <= j < |table[1..][i].entries| ::
           HasAddr(table[1..][i].entries[j], x) {
        var i, j :| 0 <= i < |table[1..]| && 0 <= j < |table[1..][i].entries|
          && HasAddr(table[1..][i].entries[j], x);
        assert table[i + 1] == table[1..][i];
      }
      if exists i, j | 0 <= i < |table| && 0 <= j < |table[i].entries| :: HasAddr(table[i].entries[j], x) {
        var i, j :| 0 <= i < |table| && 0 <= j < |table[i].entries| && HasAddr(table[i].entries[j], x);
        if i > 0 { assert table[1..][i - 1] == table[i]; }
      }
    }
  }

  /** The entries of `values` that are IPv4 addresses inside `netRange`, in order. */
  function InRange(values: seq<string>, netRange: string): seq<string>
  {
    if values == [] then []
    else (if InPrefix(values[0], netRange) then [values[0]] else []) + InRange(values[1..], netRange)
  }

  lemma {:induction false} InRangeAppend(a: seq<string>, b: seq<string>, netRange: string)
    ensures InRange(a + b, netRange) == InRange(a, netRange) + InRange(b, netRange)
  {
    if a != [] {
      assert (a + b)[1..] == a[1..] + b;
      InRangeAppend(a[1..], b, netRange);
    } else {
      assert a + b == b;
    }
  }

  /** Exactly the in-prefix IPv4 entries are kept; all others are skipped. */
  lemma {:induction false} InRangeMembers(values: seq<string>, netRange: string)
    ensures forall x :: x in InRange(values, netRange) <==> x in values && InPrefix(x, netRange)
  {
    if values != [] {
      InRangeMembers(values[1..], netRange);
      assert values == [values[0]] + values[1..];
    }
  }

  /** An invalid range raises for every IPv4 entry and each is skipped: the scan yields nothing. */
  lemma {:induction false} InRangeOfInvalidRange(values: seq<string>, netRange: string)
    requires ParseNetwork(netRange).None?
    ensures InRange(values, netRange) == []
  {
    if values != [] {
      InRangeOfInvalidRange(values[1..], netRange);
    }
  }

  // ---------------------------------------------------------------------------
  // What the commands do to the table

  /** `ip address add x`: a new entry in the IPv4 family, which is created when missing. */
  function WithAddress(table: seq<Family>, x: string): seq<Family>
  {
    if table == [] then [Family(AF_INET, [map["addr" := x]])]
    else if table[0].family == AF_INET
    then [table[0].(entries := table[0].entries + [map["addr" := x]])] + table[1..]
    else [table[0]] + WithAddress(table[1..], x)
  }

  function DropAddr(entries: seq<map<string, string>>, x: string): seq<map<string, string>>
  {
    if entries == [] then []
    else (if HasAddr(entries[0], x) then [] else [entries[0]]) + DropAddr(entries[1..], x)
  }

  /** `ip address del x`: every entry carrying `x` goes; every other entry stays in place. */
  function WithoutAddress(table: seq<Family>, x: string): seq<Family>
  {
    if table == [] then []
    else [table[0].(entries := DropAddr(table[0].entries, x))] + WithoutAddress(table[1..], x)
  }

  lemma {:induction false} WithAddressValues(table: seq<Family>, x: string)
    ensures forall y :: y in AddrValues(WithAddress(table, x)) <==> y in AddrValues(table) || y == x
  {
    var t' := WithAddress(table, x);
    if table == [] {
      assert AddrValues(t') == EntryAddrs([map["addr" := x]]) + AddrValues([]);
    } else if table[0].family == AF_INET {
      EntryAddrsAppend(table[0].entries, [map["addr" := x]]);
      assert t'[1..] == table[1..];
      assert AddrValues(t') == EntryAddrs(table[0].entries + [map["addr" := x]]) + AddrValues(table[1..]);
    } else {
      WithAddressValues(table[1..], x);
      assert t'[1..] == WithAddress(table[1..], x);
    }
  }

  /** Adding binds `x` and nothing else. */
  lemma WithAddressBinds(table: seq<Family>, x: string)
    ensures AddressSet(WithAddress(table, x)) == AddressSet(table) + {x}
  {
    WithAddressValues(table, x);
  }

  lemma {:induction false} DropAddrUnbinds(entries: seq<map<string, string>>, x: string)
    ensures forall y :: y in EntryAddrs(DropAddr(entries, x)) <==> y in EntryAddrs(entries) && y != x
  {
    if entries != [] {
      DropAddrUnbinds(entries[1..], x);
      var head := if HasAddr(entries[0], x) then [] else [entries[0]];
      EntryAddrsAppend(head, DropAddr(entries[1..], x));
    }
  }

  lemma {:induction false} WithoutAddressValues(table: seq<Family>, x: string)
    ensures forall y :: y in AddrValues(WithoutAddress(table, x)) <==> y in AddrValues(table) && y != x
  {
    if table != [] {
      WithoutAddressValues(table[1..], x);
      DropAddrUnbinds(table[0].entries, x);
      assert WithoutAddress(table, x)[1..] == WithoutAddress(table[1..], x);
    }
  }

  /** Removing unbinds `x` and nothing else. */
  lemma WithoutAddressUnbinds(table: seq<Family>, x: string)
    ensures AddressSet(WithoutAddress(table, x)) == AddressSet(table) - {x}
  {
    WithoutAddressValues(table, x);
  }

  lemma EntryAddrsStep(entries: seq<map<string, string>>, j: nat)
    requires j < |entries|
    ensures EntryAddrs(entries[..j + 1]) == EntryAddrs(entries[..j]) + EntryAddrs([entries[j]])
    ensures EntryAddrs([entries[j]]) == if "addr" in entries[j] then [entries[j]["addr"]] else []
  {
    assert entries[..j + 1] == entries[..j] + [entries[j]];
    EntryAddrsAppend(entries[..j], [entries[j]]);
  }

  lemma AddrValuesStep(table: seq<Family>, i: nat)
    requires i < |table|
    ensures AddrValues(table[..i + 1]) == AddrValues(table[..i]) + EntryAddrs(table[i].entries)
  {
    assert table[..i + 1] == table[..i] + [table[i]];
    AddrValuesAppend(table[..i], [table[i]]);
    assert AddrValues([table[i]]) == EntryAddrs(table[i].entries) + AddrValues([]);
  }

  /** The loop over one family's entries in `existing_ips_in_range`: their in-range "addr" values, in order. */
  method ScanFamily(entries: seq<map<string, string>>, netRange: string) returns (kept: seq<string>)
    ensures kept == InRange(EntryAddrs(entries), netRange)
  {
    kept := [];
    var j := 0;
    while j < |entries|
      invariant 0 <= j <= |entries|
      invariant kept == InRange(EntryAddrs(entries[..j]), netRange)
    {
      var entry := entries[j];
      var found := ScanEntry(entry, netRange);
      kept := kept + found;
      EntryAddrsStep(entries, j);
      InRangeAppend(EntryAddrs(entries[..j]), EntryAddrs([entry]), netRange);
      j := j + 1;
    }
    assert entries[..j] == entries;
  }

  /** The loop over one entry's items in `existing_ips_in_range`: its "addr", if in range. */
  method ScanEntry(entry: map<string, string>, netRange: string) returns (kept: seq<string>)
    ensures kept == InRange(EntryAddrs([entry]), netRange)
  {
    kept := [];
    var keys := entry.Keys;
    while keys != {}
      invariant keys <= entry.Keys
      invariant kept == if "addr" in entry.Keys - keys then InRange([entry["addr"]], netRange) else []
      decreases keys
    {
      var a :| a in keys;
      if a == "addr" {
        var b := entry[a];
        // a ValueError from ip_address(b) or IPv4Network(netRange) skips the entry
        if InPrefix(b, netRange) {
          kept := kept + [b];
        }
      }
      keys := keys - {a};
    }
    assert EntryAddrs([entry]) == if "addr" in entry then [entry["addr"]] else [];
  }

  // ---------------------------------------------------------------------------

  class Interface {
    /** The device name passed to every command. */
    const name: string
    /** What `netifaces.ifaddresses(name)` reports right now. */
    var table: seq<Family>
    /** The commands handed to `os.system`, oldest first. */
    var log: seq<Command>

    constructor (name: string, table: seq<Family>)
      ensures this.name == name && this.table == table && log == []
    {
      this.name := name;
      this.table := table;
      this.log := [];
    }

    /** The addresses currently assigned, as strings. */
    function Addresses(): set<string>
      reads this
    {
      AddressSet(table)
    }

    /** `get_address_state`: exact string membership among all "addr" values. */
    method GetAddressState(address: string) returns (present: bool)
      ensures present <==> exists i, j | 0 <= i < |table| && 0 <= j < |table[i].entries| ::
        HasAddr(table[i].entries[j], address)
      ensures present <==> address in Addresses()
    {
      var parsedAddresses: seq<string> := [];
      var i := 0;
      while i < |table|
        invariant 0 <= i <= |table|
        invariant parsedAddresses == AddrValues(table[..i])
      {
        var entries := table[i].entries;
        var j := 0;
        while j < |entries|
          invariant 0 <= j <= |entries|
          invariant parsedAddresses == AddrValues(table[..i]) + EntryAddrs(entries[..j])
        {
          var entry := entries[j];
          ghost var before := parsedAddresses;
          var keys := entry.Keys;
          while keys != {}
            invariant keys <= entry.Keys
            invariant parsedAddresses ==
              before + if "addr" in entry.Keys - keys then [entry["addr"]] else []
            decreases keys
          {
            var a :| a in keys;
            if a == "addr" {
              parsedAddresses := parsedAddresses + [entry[a]];
            }
            keys := keys - {a};
          }
          EntryAddrsStep(entries, j);
          j := j + 1;
        }
        assert entries[..j] == entries;
        AddrValuesStep(table, i);
        i := i + 1;
      }
      assert table[..i] == table;
      AddrValuesMembers(table, address);
      present := address in parsedAddresses;
    }

    /** `provision_address`: add the address unless it is already assigned. */
    method ProvisionAddress(address: string, netmask: string)
      modifies this
      ensures Addresses() == old(Addresses()) + {address}
      ensures old(address in Addresses()) ==> table == old(table) && log == old(log)
      ensures !old(address in Addresses()) ==>
        table == WithAddress(old(table), address) && log == old(log) + [Add(address, netmask)]
    {
      var present := GetAddressState(address);
      if !present {
        log := log + [Add(address, netmask)];
        WithAddressBinds(table, address);
        table := WithAddress(table, address);
      }
    }

    /** `enforce_no_address`: delete the address only if it is assigned. */
    method EnforceNoAddress(address: string, netmask: string)
      modifies this
      ensures Addresses() == old(Addresses()) - {address}
      ensures old(address !in Addresses()) ==> table == old(table) && log == old(log)
      ensures old(address in Addresses()) ==>
        table == WithoutAddress(old(table), address) && log == old(log) + [Del(address, netmask)]
    {
      var present := GetAddressState(address);
      if present {
        log := log + [Del(address, netmask)];
        WithoutAddressUnbinds(table, address);
        table := WithoutAddress(table, address);
      }
    }

    /** `existing_ips_in_range`: the assigned IPv4 addresses inside `netRange`, in table order. */
    method ExistingIpsInRange(netRange: string) returns (parsedAddresses: seq<string>)
      ensures parsedAddresses == InRange(AddrValues(table), netRange)
      ensures forall x :: x in parsedAddresses <==> x in Addresses() && InPrefix(x, netRange)
    {
      parsedAddresses := [];
      var i := 0;
      while i < |table|
        invariant 0 <= i <= |table|
        invariant parsedAddresses == InRange(AddrValues(table[..i]), netRange)
      {
        var entries := table[i].entries;
        var kept := ScanFamily(entries, netRange);
        parsedAddresses := parsedAddresses + kept;
        AddrValuesStep(table, i);
        InRangeAppend(AddrValues(table[..i]), EntryAddrs(entries), netRange);
        i := i + 1;
      }
      assert table[..i] == table;
      InRangeMembers(AddrValues(table), netRange);
    }
  }
}
