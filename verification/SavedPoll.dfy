/** The rows one committed `SavePollResult` adds. */
module SavedPoll {
  import opened Basics
  import opened History
  import opened Model

  // A child row before it gets its id, run and lighthouse name.
  datatype Cell = Cell(observedAt: int, data: Data)

  function RawCell(c: CommandResult): Cell {
    Cell(c.startedAt, Raw(c.command, c.err.None?, c.output, c.err))
  }

  function HostCell(startedAt: int, source: Source, index: nat, e: HostmapEntry): Cell {
    Cell(startedAt, Host(
      source, index, NullableString(PrimaryVPNAddr(e)), e.vpnAddrs, e.localIndex, e.remoteIndex,
      if e.cert.Some? then NullableString(e.cert.value.name) else None,
      if e.cert.Some? then NullableString(e.cert.value.fingerprint) else None,
      if e.cert.Some? then e.cert.value.groups else []))
  }

  function RawCells(commands: seq<CommandResult>): seq<Cell> {
    seq(|commands|, i requires 0 <= i < |commands| => RawCell(commands[i]))
  }

  function HostCells(startedAt: int, source: Source, entries: seq<HostmapEntry>): seq<Cell> {
    seq(|entries|, i requires 0 <= i < |entries| => HostCell(startedAt, source, i, entries[i]))
  }

  function ReporterData(e: AddrmapEntry, reporter: string): Data
    requires reporter in e.addrs
  {
    var a := e.addrs[reporter];
    Addr(e.vpnAddr, NullableString(reporter), a.learned, a.reported, a.relay)
  }

  // One row per reporter, or a single empty row.
  function AddrRows(e: AddrmapEntry): set<Data> {
    if |e.addrs| == 0 then {Addr(e.vpnAddr, None, [], [], [])}
    else set r | r in e.addrs :: ReporterData(e, r)
  }

  function AddrBag(entries: seq<AddrmapEntry>): multiset<Data> {
    if entries == [] then multiset{}
    else AddrBag(entries[..|entries| - 1]) + multiset(AddrRows(entries[|entries| - 1]))
  }

  function AddrCount(entries: seq<AddrmapEntry>): nat {
    if entries == [] then 0
    else
      var e := entries[|entries| - 1];
      AddrCount(entries[..|entries| - 1]) + (if |e.addrs| == 0 then 1 else |e.addrs|)
  }

  function AddrCells(startedAt: int, addrs: seq<Data>): seq<Cell> {
    seq(|addrs|, i requires 0 <= i < |addrs| => Cell(startedAt, addrs[i]))
  }

  lemma AddrCellsAppend(at: int, a: seq<Data>, b: seq<Data>)
    ensures AddrCells(at, a + b) == AddrCells(at, a) + AddrCells(at, b)
  {
  }

  function RelayCells(result: PollResult): seq<Cell> {
    if |result.relays| > 0 then [Cell(result.startedAt, Relays(result.relays))] else []
  }

  // All rows in insertion order; only the order of a reporter map's rows is left open.
  function Payload(result: PollResult, addrs: seq<Data>): seq<Cell> {
    RawCells(result.commands) +
    HostCells(result.startedAt, Hostmap, result.hostmap) +
    HostCells(result.startedAt, Pending, result.pending) +
    AddrCells(result.startedAt, addrs) +
    RelayCells(result)
  }

  function RunOf(result: PollResult): Run {
    Run(result.startedAt, Some(result.finishedAt), result.lighthouse.name, Target(result.lighthouse),
        result.err.None?, result.err, NullableString(result.nebulaVersion))
  }

  function Numbered(base: int, runId: int, lighthouse: string, cells: seq<Cell>, i: int): Child
    requires 0 <= i < |cells|
  {
    Child(base + i, runId, cells[i].observedAt, lighthouse, cells[i].data)
  }

  function Rows(base: int, runId: int, lighthouse: string, cells: seq<Cell>): set<Child> {
    set i | 0 <= i < |cells| :: Numbered(base, runId, lighthouse, cells, i)
  }

  function PollOf(result: PollResult, runId: int, base: int, addrs: seq<Data>): Poll {
    Poll(runId, RunOf(result), Rows(base, runId, result.lighthouse.name, Payload(result, addrs)))
  }

  /*** What such a poll satisfies ***/

  ghost predicate ClockForward(result: PollResult) {
    forall c <- result.commands :: result.startedAt <= c.startedAt
  }

  lemma PollOfIsLinked(result: PollResult, runId: int, base: int, addrs: seq<Data>)
    ensures PollLinked(PollOf(result, runId, base, addrs))
    ensures forall k <- PollOf(result, runId, base, addrs).kids :: base <= k.id < base + |Payload(result, addrs)|
  {
  }

  // Children are observed no earlier than their run starts exactly when the clock did not run
  // backwards inside the poll.
  lemma PollOfIsOrderedIffClockForward(result: PollResult, runId: int, base: int, addrs: seq<Data>)
    ensures PollOrdered(PollOf(result, runId, base, addrs)) <==> ClockForward(result)
  {
    var p := PollOf(result, runId, base, addrs);
    var cells := Payload(result, addrs);
    if PollOrdered(p) {
      forall i | 0 <= i < |result.commands|
        ensures result.startedAt <= result.commands[i].startedAt
      {
        assert cells[i] == RawCell(result.commands[i]);
        assert Numbered(base, runId, result.lighthouse.name, cells, i) in p.kids;
      }
    }
    if ClockForward(result) {
      assert forall i | 0 <= i < |cells| ::
        cells[i].observedAt == if i < |result.commands| then result.commands[i].startedAt else result.startedAt;
    }
  }

  // Every row but a raw payload carries the start time of the poll.
  lemma PollOfIsStamped(result: PollResult, runId: int, base: int, addrs: seq<Data>)
    ensures PollStamped(PollOf(result, runId, base, addrs))
  {
    var cells := Payload(result, addrs);
    assert forall i | 0 <= i < |cells| :: !cells[i].data.Raw? ==> cells[i].observedAt == result.startedAt;
  }

  // A poll whose clock was set back two days after its start: its six commands started at 0.
  function BackwardPoll(): PollResult {
    PollResult(Lighthouse("lh", "u", "h:22"), 2 * DAY, 0,
               seq(|COMMANDS|, i requires 0 <= i < |COMMANDS| => CommandResult(COMMANDS[i], 0, 0, "", None)),
               "", [], [], [], "", None)
  }

  // When the clock ran backwards inside a poll, dropping raw chunks at the run cutoff can delete a
  // payload of a run that stays.
  lemma DropChunksNeedsClock()
    ensures !ClockForward(BackwardPoll())
    ensures var t := AddPoll(Tables(map[], {}), PollOf(BackwardPoll(), 0, 0, []));
      After(Cuts(Some(2 * DAY), None), DropChunks(t, RawPayloads, 2 * DAY)) != After(Cuts(Some(2 * DAY), None), t)
  {
    var result := BackwardPoll();
    assert result.commands[0] in result.commands;
    var cells := Payload(result, []);
    assert cells[0] == RawCell(result.commands[0]);
    var k := Numbered(0, 0, "lh", cells, 0);
    var t := AddPoll(Tables(map[], {}), PollOf(result, 0, 0, []));
    assert k in t.kids && k in After(Cuts(Some(2 * DAY), None), t).kids;
    assert ChunkEnd(0) == DAY;
    assert k !in DropChunks(t, RawPayloads, 2 * DAY).kids;
  }

  // A row's place in the payload fixes its table, and for hostmap rows its source and index.
  lemma PayloadAt(result: PollResult, addrs: seq<Data>, i: int)
    requires 0 <= i < |Payload(result, addrs)|
    requires forall d <- addrs :: d.Addr?
    ensures var n := |result.commands|;
      var h := n + |result.hostmap|;
      var p := h + |result.pending|;
      var a := p + |addrs|;
      var d := Payload(result, addrs)[i].data;
      && (TableOf(d) == RawPayloads <==> i < n)
      && (TableOf(d) == HostmapEntries <==> n <= i < p)
      && (TableOf(d) == AddrmapEntries <==> p <= i < a)
      && (TableOf(d) == RelaySnapshots <==> a <= i)
      && (d.Host? ==> i == (if d.source == Hostmap then n else h) + d.entryIndex)
  {
    assert addrs != [] ==> addrs[0] in addrs;
    if |result.commands| + |result.hostmap| + |result.pending| <= i {
      var j := i - |result.commands| - |result.hostmap| - |result.pending|;
      if j < |addrs| {
        assert addrs[j] in addrs;
      }
    }
  }

  lemma PollOfIsIndexed(result: PollResult, runId: int, base: int, addrs: seq<Data>)
    requires forall d <- addrs :: d.Addr?
    ensures PollIndexed(PollOf(result, runId, base, addrs))
  {
    var cells := Payload(result, addrs);
    var name := result.lighthouse.name;
    forall i, j | 0 <= i < |cells| && 0 <= j < |cells|
      ensures (cells[i].data.Host? && cells[j].data.Host? && cells[i].data.source == cells[j].data.source &&
               cells[i].data.entryIndex == cells[j].data.entryIndex) ==> i == j
    {
      PayloadAt(result, addrs, i);
      PayloadAt(result, addrs, j);
    }
    forall a <- PollOf(result, runId, base, addrs).kids, b <- PollOf(result, runId, base, addrs).kids |
      a.data.Host? && b.data.Host? && a.data.source == b.data.source && a.data.entryIndex == b.data.entryIndex
      ensures a == b
    {
      var i :| 0 <= i < |cells| && a == Numbered(base, runId, name, cells, i);
      var j :| 0 <= j < |cells| && b == Numbered(base, runId, name, cells, j);
    }
  }

  /*** Counts ***/

  lemma {:induction false} AddrBagSize(entries: seq<AddrmapEntry>)
    ensures |AddrBag(entries)| == AddrCount(entries)
    ensures forall d <- AddrBag(entries) :: d.Addr?
  {
    if entries == [] {
    } else {
      AddrBagSize(entries[..|entries| - 1]);
      var e := entries[|entries| - 1];
      AddrRowsSize(e);
      assert |multiset(AddrRows(e))| == |AddrRows(e)|;
    }
  }

  lemma AddrRowsSize(e: AddrmapEntry)
    ensures |AddrRows(e)| == if |e.addrs| == 0 then 1 else |e.addrs|
  {
    if |e.addrs| > 0 {
      var f := (r: string) => if r in e.addrs then ReporterData(e, r) else Relays(r);
      ImageSize(e.addrs.Keys, f);
      assert AddrRows(e) == Image(e.addrs.Keys, f);
      assert |e.addrs| == |e.addrs.Keys|;
    }
  }

  function InTable(kids: set<Child>, table: Table): set<Child> {
    set k <- kids | TableOf(k.data) == table
  }

  lemma RowsBetween(base: int, runId: int, name: string, cells: seq<Cell>, table: Table, lo: int, hi: int,
                    f: int -> Child)
    requires 0 <= lo <= hi <= |cells|
    requires forall i | 0 <= i < |cells| :: TableOf(cells[i].data) == table <==> lo <= i < hi
    requires forall i | 0 <= i < |cells| :: f(i) == Numbered(base, runId, name, cells, i)
    ensures InTable(Rows(base, runId, name, cells), table) == Image(Range(lo, hi), f)
  {
    var rows := InTable(Rows(base, runId, name, cells), table);
    forall k <- rows
      ensures k in Image(Range(lo, hi), f)
    {
      var i :| 0 <= i < |cells| && k == Numbered(base, runId, name, cells, i);
      assert i in Range(lo, hi) && f(i) == k;
    }
    forall k <- Image(Range(lo, hi), f)
      ensures k in rows
    {
      var i :| i in Range(lo, hi) && f(i) == k;
      assert k == Numbered(base, runId, name, cells, i);
    }
  }

  lemma CountBetween(base: int, runId: int, name: string, cells: seq<Cell>, table: Table, lo: int, hi: int)
    requires 0 <= lo <= hi <= |cells|
    requires forall i | 0 <= i < |cells| :: TableOf(cells[i].data) == table <==> lo <= i < hi
    ensures |InTable(Rows(base, runId, name, cells), table)| == hi - lo
  {
    var f := (i: int) => if 0 <= i < |cells| then Numbered(base, runId, name, cells, i)
                         else Child(base + i, runId, 0, name, Relays(""));
    RowsBetween(base, runId, name, cells, table, lo, hi, f);
    ImageSize(Range(lo, hi), f);
    RangeSize(lo, hi);
  }

  // A successful save adds |Commands| raw rows, |Hostmap| + |Pending| host rows, one address row
  // per reporter (one for an entry without reporters), and a relay row iff there are relays.
  lemma SavedRowCounts(result: PollResult, runId: int, base: int, addrs: seq<Data>)
    requires multiset(addrs) == AddrBag(result.addrmap)
    ensures var kids := PollOf(result, runId, base, addrs).kids;
      && |InTable(kids, RawPayloads)| == |result.commands|
      && |InTable(kids, HostmapEntries)| == |result.hostmap| + |result.pending|
      && |InTable(kids, AddrmapEntries)| == AddrCount(result.addrmap)
      && |InTable(kids, RelaySnapshots)| == if result.relays == "" then 0 else 1
  {
    AddrBagSize(result.addrmap);
    assert |addrs| == |multiset(addrs)|;
    BagMembers(addrs, result.addrmap);
    var cells := Payload(result, addrs);
    var name := result.lighthouse.name;
    var n := |result.commands|;
    var p := n + |result.hostmap| + |result.pending|;
    forall i | 0 <= i < |cells|
      ensures TableOf(cells[i].data) == RawPayloads <==> 0 <= i < n
      ensures TableOf(cells[i].data) == HostmapEntries <==> n <= i < p
      ensures TableOf(cells[i].data) == AddrmapEntries <==> p <= i < p + |addrs|
      ensures TableOf(cells[i].data) == RelaySnapshots <==> p + |addrs| <= i < |cells|
    {
      PayloadAt(result, addrs, i);
    }
    CountBetween(base, runId, name, cells, RawPayloads, 0, n);
    CountBetween(base, runId, name, cells, HostmapEntries, n, p);
    CountBetween(base, runId, name, cells, AddrmapEntries, p, p + |addrs|);
    CountBetween(base, runId, name, cells, RelaySnapshots, p + |addrs|, |cells|);
  }

  lemma BagMembers(addrs: seq<Data>, entries: seq<AddrmapEntry>)
    requires multiset(addrs) == AddrBag(entries)
    ensures forall d <- addrs :: d.Addr?
  {
    AddrBagSize(entries);
    assert forall d <- addrs :: d in multiset(addrs);
  }

  // Whatever order the reporter maps were walked in, the same rows are written, ids aside.
  lemma MapOrderDoesNotMatter(result: PollResult, addrs: seq<Data>, addrs': seq<Data>)
    requires multiset(addrs) == AddrBag(result.addrmap) && multiset(addrs') == AddrBag(result.addrmap)
    ensures multiset(Payload(result, addrs)) == multiset(Payload(result, addrs'))
  {
    CellsBag(result.startedAt, addrs, addrs');
  }

  lemma {:induction false} CellsBag(at: int, a: seq<Data>, b: seq<Data>)
    requires multiset(a) == multiset(b)
    ensures multiset(AddrCells(at, a)) == multiset(AddrCells(at, b))
    decreases |a|
  {
    if a == [] {
      assert |multiset(b)| == 0;
    } else {
      assert a[0] in multiset(b);
      var j :| 0 <= j < |b| && b[j] == a[0];
      CellsWithout(at, a, 0);
      CellsWithout(at, b, j);
      assert multiset(Without(a, 0)) == multiset(a) - multiset{a[0]};
      assert multiset(Without(b, j)) == multiset(b) - multiset{a[0]};
      CellsBag(at, Without(a, 0), Without(b, j));
    }
  }

  function Without(a: seq<Data>, j: nat): seq<Data>
    requires j < |a|
  {
    a[..j] + a[j + 1..]
  }

  lemma CellsWithout(at: int, a: seq<Data>, j: nat)
    requires j < |a|
    ensures multiset(a) == multiset(Without(a, j)) + multiset{a[j]}
    ensures multiset(AddrCells(at, a)) == multiset(AddrCells(at, Without(a, j))) + multiset{Cell(at, a[j])}
  {
    assert a == a[..j] + [a[j]] + a[j + 1..];
    var l, r := AddrCells(at, a[..j]), AddrCells(at, a[j + 1..]);
    assert AddrCells(at, a) == l + [Cell(at, a[j])] + r;
    assert AddrCells(at, Without(a, j)) == l + r;
  }
}
