/** What the tables say of a saved poll, field by field: the poll can be read back from its rows. */
module Recorded {
  import opened Basics
  import opened History
  import opened Model
  import opened SavedPoll

  // A value that may be NULL holds a text, which is NULL when empty.
  predicate Holds(o: Option<string>, text: string) {
    if o.Some? then o.value == text && text != "" else text == ""
  }

  lemma RunRecordsPoll(result: PollResult, runId: int, base: int, addrs: seq<Data>)
    ensures var p := PollOf(result, runId, base, addrs);
      && p.id == runId && (p.run.success <==> result.err.None?) && p.run.error == result.err
      && p.run.startedAt == result.startedAt && p.run.finishedAt == Some(result.finishedAt)
      && p.run.lighthouse == result.lighthouse.name
      && p.run.sshTarget == result.lighthouse.user + "@" + result.lighthouse.address
      && Holds(p.run.nebulaVersion, result.nebulaVersion)
  {
  }

  /*** The rows of each kind ***/

  predicate RecordsCommand(k: Child, c: CommandResult) {
    && k.data.Raw? && k.observedAt == c.startedAt && k.data.command == c.command && k.data.output == c.output
    && (k.data.success <==> c.err.None?) && k.data.error == c.err
  }

  predicate RecordsEntry(k: Child, e: HostmapEntry) {
    && k.data.Host? && k.data.vpnAddrs == e.vpnAddrs
    && Holds(k.data.primary, if e.vpnAddrs == [] then "" else e.vpnAddrs[0])
    && k.data.localIndex == e.localIndex && k.data.remoteIndex == e.remoteIndex
    && Holds(k.data.certName, if e.cert.Some? then e.cert.value.name else "")
    && Holds(k.data.fingerprint, if e.cert.Some? then e.cert.value.fingerprint else "")
    && k.data.certGroups == if e.cert.Some? then e.cert.value.groups else []
  }

  // The row of one reporter of an address, or the one row of an address nobody reports.
  predicate RecordsReport(d: Data, e: AddrmapEntry) {
    && d.Addr? && d.vpnAddr == e.vpnAddr
    && if |e.addrs| == 0 then d == Addr(e.vpnAddr, None, [], [], [])
       else exists r <- e.addrs :: Holds(d.reporter, r) &&
              d.learned == e.addrs[r].learned && d.reported == e.addrs[r].reported && d.relay == e.addrs[r].relay
  }

  function Entries(result: PollResult, source: Source): seq<HostmapEntry> {
    if source == Hostmap then result.hostmap else result.pending
  }

  lemma KidIsCell(result: PollResult, runId: int, base: int, addrs: seq<Data>, k: Child) returns (i: int)
    requires k in PollOf(result, runId, base, addrs).kids
    ensures 0 <= i < |Payload(result, addrs)|
    ensures k == Child(base + i, runId, Payload(result, addrs)[i].observedAt, result.lighthouse.name,
                       Payload(result, addrs)[i].data)
  {
    var cells := Payload(result, addrs);
    i :| 0 <= i < |cells| && k == Numbered(base, runId, result.lighthouse.name, cells, i);
  }

  lemma CellIsKid(result: PollResult, runId: int, base: int, addrs: seq<Data>, i: int) returns (k: Child)
    requires 0 <= i < |Payload(result, addrs)|
    ensures k in PollOf(result, runId, base, addrs).kids
    ensures k == Child(base + i, runId, Payload(result, addrs)[i].observedAt, result.lighthouse.name,
                       Payload(result, addrs)[i].data)
  {
    k := Numbered(base, runId, result.lighthouse.name, Payload(result, addrs), i);
  }

  // Every command has its row, and every raw row is that of a command.
  lemma CommandsAreRecorded(result: PollResult, runId: int, base: int, addrs: seq<Data>)
    requires multiset(addrs) == AddrBag(result.addrmap)
    ensures var kids := PollOf(result, runId, base, addrs).kids;
      && (forall c <- result.commands :: exists k <- kids :: RecordsCommand(k, c))
      && (forall k <- kids :: k.data.Raw? ==> exists c <- result.commands :: RecordsCommand(k, c))
  {
    BagMembers(addrs, result.addrmap);
    var kids := PollOf(result, runId, base, addrs).kids;
    forall c <- result.commands
      ensures exists k <- kids :: RecordsCommand(k, c)
    {
      var i :| 0 <= i < |result.commands| && result.commands[i] == c;
      var k := CellIsKid(result, runId, base, addrs, i);
      assert RecordsCommand(k, c);
    }
    forall k <- kids | k.data.Raw?
      ensures exists c <- result.commands :: RecordsCommand(k, c)
    {
      var i := KidIsCell(result, runId, base, addrs, k);
      PayloadAt(result, addrs, i);
      assert RecordsCommand(k, result.commands[i]);
    }
  }

  // So has every entry of the hostmap and of the pending one, at its index.
  lemma EntryIsRecorded(result: PollResult, runId: int, base: int, addrs: seq<Data>, source: Source, i: nat)
    returns (k: Child)
    requires i < |Entries(result, source)|
    ensures k in PollOf(result, runId, base, addrs).kids
    ensures RecordsEntry(k, Entries(result, source)[i]) && k.data.source == source && k.data.entryIndex == i
  {
    var at := |result.commands| + (if source == Hostmap then 0 else |result.hostmap|) + i;
    k := CellIsKid(result, runId, base, addrs, at);
    assert Payload(result, addrs)[at] == HostCell(result.startedAt, source, i, Entries(result, source)[i]);
  }

  lemma HostRowIsEntry(result: PollResult, runId: int, base: int, addrs: seq<Data>, k: Child)
    requires multiset(addrs) == AddrBag(result.addrmap)
    requires k in PollOf(result, runId, base, addrs).kids && k.data.Host?
    ensures k.data.entryIndex < |Entries(result, k.data.source)|
    ensures RecordsEntry(k, Entries(result, k.data.source)[k.data.entryIndex])
  {
    BagMembers(addrs, result.addrmap);
    var i := KidIsCell(result, runId, base, addrs, k);
    PayloadAt(result, addrs, i);
    var j := i - |result.commands|;
    if j < |result.hostmap| {
      assert Payload(result, addrs)[i] == HostCell(result.startedAt, Hostmap, j, result.hostmap[j]);
    } else {
      var p := j - |result.hostmap|;
      assert Payload(result, addrs)[i] == HostCell(result.startedAt, Pending, p, result.pending[p]);
    }
  }

  lemma {:induction false} BagMemberIff(entries: seq<AddrmapEntry>, d: Data)
    ensures d in AddrBag(entries) <==> exists e <- entries :: d in AddrRows(e)
  {
    if entries == [] {
    } else {
      var front, last := entries[..|entries| - 1], entries[|entries| - 1];
      BagMemberIff(front, d);
      assert d in AddrBag(entries) <==> d in AddrBag(front) || d in AddrRows(last);
      InSnoc(entries, front, last);
    }
  }

  lemma InSnoc(entries: seq<AddrmapEntry>, front: seq<AddrmapEntry>, last: AddrmapEntry)
    requires entries != [] && front == entries[..|entries| - 1] && last == entries[|entries| - 1]
    ensures forall e :: e in entries <==> e in front || e == last
  {
    assert entries == front + [last];
  }

  lemma AddrRowsRecord(e: AddrmapEntry, d: Data)
    ensures d in AddrRows(e) <==> RecordsReport(d, e)
  {
    if |e.addrs| > 0 {
      if d in AddrRows(e) {
        var r :| r in e.addrs && d == ReporterData(e, r);
        assert Holds(d.reporter, r);
      }
      if RecordsReport(d, e) {
        var r :| r in e.addrs && Holds(d.reporter, r) &&
          d.learned == e.addrs[r].learned && d.reported == e.addrs[r].reported && d.relay == e.addrs[r].relay;
        assert d == ReporterData(e, r);
      }
    }
  }

  lemma AddrKidIff(result: PollResult, runId: int, base: int, addrs: seq<Data>, d: Data)
    requires forall a <- addrs :: a.Addr?
    ensures (d.Addr? && exists k <- PollOf(result, runId, base, addrs).kids :: k.data == d) <==> d in addrs
  {
    var kids := PollOf(result, runId, base, addrs).kids;
    var at := |result.commands| + |result.hostmap| + |result.pending|;
    if k :| k in kids && k.data == d && d.Addr? {
      var i := KidIsCell(result, runId, base, addrs, k);
      PayloadAt(result, addrs, i);
      assert Payload(result, addrs)[i].data == addrs[i - at];
    }
    if d in addrs {
      var j :| 0 <= j < |addrs| && addrs[j] == d;
      var k := CellIsKid(result, runId, base, addrs, at + j);
      assert k.data == d;
    }
  }

  // The address rows are those of the reports.
  lemma ReportsAreRecorded(result: PollResult, runId: int, base: int, addrs: seq<Data>, d: Data)
    requires multiset(addrs) == AddrBag(result.addrmap)
    ensures (d.Addr? && exists k <- PollOf(result, runId, base, addrs).kids :: k.data == d) <==>
            exists e <- result.addrmap :: RecordsReport(d, e)
  {
    BagMembers(addrs, result.addrmap);
    AddrKidIff(result, runId, base, addrs, d);
    BagMemberIff(result.addrmap, d);
    assert d in addrs <==> d in multiset(addrs);
    forall e
      ensures d in AddrRows(e) <==> RecordsReport(d, e)
    {
      AddrRowsRecord(e, d);
    }
  }

  // A relay row holds the relays, if there are any.
  lemma RelaysAreRecorded(result: PollResult, runId: int, base: int, addrs: seq<Data>, relays: string)
    requires multiset(addrs) == AddrBag(result.addrmap)
    ensures (exists k <- PollOf(result, runId, base, addrs).kids :: k.data == Relays(relays)) <==>
            result.relays == relays && relays != ""
  {
    BagMembers(addrs, result.addrmap);
    var cells := Payload(result, addrs);
    var kids := PollOf(result, runId, base, addrs).kids;
    if k :| k in kids && k.data == Relays(relays) {
      var i := KidIsCell(result, runId, base, addrs, k);
      PayloadAt(result, addrs, i);
      assert i == |cells| - 1 && cells[i] == RelayCells(result)[0];
    }
    if result.relays == relays && relays != "" {
      assert cells[|cells| - 1] == RelayCells(result)[0];
      var k := CellIsKid(result, runId, base, addrs, |cells| - 1);
    }
  }
}
