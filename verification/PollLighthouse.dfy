/** `Collector.pollLighthouse`: six commands, whose failures are collected and do not stop the poll. */
module PollLighthouse {
  import opened Basics
  import opened Model
  import opened SavedPoll
  import opened Lighthouses

  // A wall clock that does not run backwards.
  class Clock {
    var time: int

    constructor ()
    {
      time := *;
    }

    method Now() returns (t: int)
      modifies this
      ensures old(time) <= t == time
    {
      var passed: int := *;
      if passed > 0 {
        time := time + passed;
      }
      t := time;
    }
  }

  // The JSON decoders, of which only success and failure are visible here.
  datatype Decoders = Decoders(
    device: string -> Option<string>,
    hostmap: string -> Option<seq<HostmapEntry>>,
    addrmap: string -> Option<seq<AddrmapEntry>>,
    relays: string -> Option<string>)

  function Succeeded(c: CommandResult): bool {
    c.err.None?
  }

  // What a decoder makes of a command's output: nothing if either failed.
  function Decoded<T>(c: CommandResult, decode: string -> Option<T>): Option<T> {
    if Succeeded(c) then decode(c.output) else None
  }

  predicate WentWell<T>(c: CommandResult, decode: string -> Option<T>) {
    c.err.None? && decode(c.output).Some?
  }

  // `value` is what the command and its decoder gave, and nothing if either failed.
  predicate Follows<T(==)>(c: CommandResult, command: string, decode: string -> Option<T>, nothing: T, value: T) {
    && c.command == command
    && value == if c.err.None? && decode(c.output).Some? then decode(c.output).value else nothing
  }

  function OrElse<T>(o: Option<T>, default: T): T {
    if o.Some? then o.value else default
  }

  // errors.Join
  function JoinErrors(errs: seq<string>): Option<string> {
    if errs == [] then None else Some(Join(errs, '\n'))
  }

  method RunCommand(clock: Clock, command: string) returns (c: CommandResult)
    modifies clock
    ensures c.command == command
    ensures old(clock.time) <= c.startedAt <= c.finishedAt == clock.time
  {
    var startedAt := clock.Now();
    var output: string := *;
    var err: Option<string> := *;
    var finishedAt := clock.Now();
    c := CommandResult(command, startedAt, finishedAt, output, err);
  }

  // The one error a failed command, or a failed decoder of its output, leaves behind.
  function Problems<T>(c: CommandResult, decode: string -> Option<T>): (p: seq<string>)
    ensures p == [] <==> Decoded(c, decode).Some?
  {
    if c.err.Some? then [c.err.value]
    else if decode(c.output).None? then ["parse " + c.command]
    else []
  }

  // A command followed by its decoder; each adds its own error.
  method RunDecoded<T(0)>(clock: Clock, command: string, decode: string -> Option<T>, errs: seq<string>)
    returns (c: CommandResult, value: Option<T>, errs': seq<string>)
    modifies clock
    ensures c.command == command && value == Decoded(c, decode)
    ensures old(clock.time) <= c.startedAt <= c.finishedAt == clock.time
    ensures errs' == errs + Problems(c, decode)
  {
    c := RunCommand(clock, command);
    errs', value := errs, None;
    if c.err.Some? {
      errs' := errs' + [c.err.value];
    } else {
      value := decode(c.output);
      if value.None? {
        errs' := errs' + ["parse " + command];
      }
    }
  }

  // The six commands in order; an error is collected iff one of them or its decoder failed.
  method RunAll(clock: Clock, d: Decoders)
    returns (c0: CommandResult, c1: CommandResult, c2: CommandResult, c3: CommandResult, c4: CommandResult,
             c5: CommandResult, errs: seq<string>)
    modifies clock
    ensures old(clock.time) <= c0.startedAt <= c1.startedAt <= c2.startedAt <= c3.startedAt <= c4.startedAt
    ensures c4.startedAt <= c5.startedAt <= clock.time
    ensures [c0.command, c1.command, c2.command, c3.command, c4.command, c5.command] == COMMANDS
    ensures errs == [] <==>
            Succeeded(c0) && Decoded(c1, d.device).Some? && Decoded(c2, d.hostmap).Some? &&
            Decoded(c3, d.addrmap).Some? && Decoded(c4, d.hostmap).Some? && Decoded(c5, d.relays).Some?
  {
    c0 := RunCommand(clock, COMMANDS[0]);
    errs := if c0.err.Some? then [c0.err.value] else [];
    var dev, hosts, addrs, pending, relays;
    c1, dev, errs := RunDecoded(clock, COMMANDS[1], d.device, errs);
    c2, hosts, errs := RunDecoded(clock, COMMANDS[2], d.hostmap, errs);
    c3, addrs, errs := RunDecoded(clock, COMMANDS[3], d.addrmap, errs);
    c4, pending, errs := RunDecoded(clock, COMMANDS[4], d.hostmap, errs);
    c5, relays, errs := RunDecoded(clock, COMMANDS[5], d.relays, errs);
  }

  // All six commands run, in order and never before the poll starts; a field is filled iff its
  // command and its decoder succeeded; and the poll is successful iff everything did.
  method Poll(clock: Clock, l: Lighthouse, d: Decoders) returns (r: PollResult, ghost device: Option<string>)
    modifies clock
    ensures r.lighthouse == l && |r.commands| == 6
    ensures forall i | 0 <= i < 6 :: r.commands[i].command == COMMANDS[i]
    ensures ClockForward(r) && r.startedAt <= r.finishedAt
    ensures r.nebulaVersion == if r.commands[0].err.None? then TrimSpace(r.commands[0].output) else ""
    ensures device == Decoded(r.commands[1], d.device)
    ensures Follows(r.commands[2], "list-hostmap -json", d.hostmap, [], r.hostmap)
    ensures Follows(r.commands[3], "list-lighthouse-addrmap -json", d.addrmap, [], r.addrmap)
    ensures Follows(r.commands[4], "list-pending-hostmap -json", d.hostmap, [], r.pending)
    ensures Follows(r.commands[5], "print-relays", d.relays, "", r.relays)
    ensures r.err.None? <==>
            r.commands[0].err.None? && WentWell(r.commands[1], d.device) && WentWell(r.commands[2], d.hostmap) &&
            WentWell(r.commands[3], d.addrmap) && WentWell(r.commands[4], d.hostmap) &&
            WentWell(r.commands[5], d.relays)
  {
    var startedAt := clock.Now();
    var c0, c1, c2, c3, c4, c5, errs := RunAll(clock, d);
    var finishedAt := clock.Now();
    device := Decoded(c1, d.device);
    r := PollResult(l, startedAt, finishedAt, [c0, c1, c2, c3, c4, c5],
                    if c0.err.None? then TrimSpace(c0.output) else "",
                    OrElse(Decoded(c2, d.hostmap), []), OrElse(Decoded(c4, d.hostmap), []),
                    OrElse(Decoded(c3, d.addrmap), []), OrElse(Decoded(c5, d.relays), ""), JoinErrors(errs));
  }
}
