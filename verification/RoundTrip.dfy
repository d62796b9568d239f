/** Printing parsed lighthouses and parsing them again, and the loop over all configured values. */
module RoundTrip {
  import opened Basics
  import opened HostPort
  import opened Model
  import opened Lighthouses

  function Print(l: Lighthouse): string {
    l.name + "=" + Target(l)
  }

  /*** What parsing one value says about the lighthouse ***/

  // The pieces of an accepted value.
  ghost predicate Parts(value: string, l: Lighthouse, addr: string, host: string, port: string) {
    && addr == AddrOf(value)
    && SplitHostPortDefault(addr, DEFAULT_PORT) == Ok((host, port))
    && l.address == JoinHostPort(host, port)
    && NameAndTarget(value).1 == l.user + "@" + addr
    && '@' !in l.user && l.user != "" && addr != ""
    && l.name == if NameAndTarget(value).0 == "" then host else NameAndTarget(value).0
  }

  lemma ParsedParts(value: string, l: Lighthouse) returns (host: string, port: string)
    requires ParseOne(value) == Ok(l)
    ensures Parts(value, l, AddrOf(value), host, port)
  {
    var target := NameAndTarget(value).1;
    CutParts(target, '@');
    var addr := AddrOf(value);
    host := SplitHostPortDefault(addr, DEFAULT_PORT).value.0;
    port := SplitHostPortDefault(addr, DEFAULT_PORT).value.1;
  }

  lemma TargetIsTrimmed(value: string)
    requires Trimmed(value)
    ensures Trimmed(NameAndTarget(value).1)
    ensures '=' !in NameAndTarget(value).0
  {
    CutParts(value, '=');
    match Cut(value, '=')
    case Some((before, after)) => TrimSpaceParts(after); TrimSpaceParts(before);
    case None =>
  }

  // Whether a name is its own trimmed form, or was blank and stands for the host.
  predicate StableName(name: string) {
    '=' !in name && (TrimSpace(name) == name || TrimSpace(name) == "")
  }

  ghost predicate Printable(l: Lighthouse) {
    && l.user != "" && !IsSpace(l.user[0]) && '@' !in l.user
    && l.address != "" && !IsSpace(l.address[|l.address| - 1])
  }

  // A printed lighthouse starts its target with a non-space and ends with one.
  lemma TargetEnds(value: string, l: Lighthouse, addr: string, host: string, port: string)
    requires Trimmed(value) && Parts(value, l, addr, host, port)
    ensures Printable(l)
  {
    TargetIsTrimmed(value);
    Resolved(addr, host, port);
    AddressEnd(l.user, addr, host, port);
  }

  lemma AddressEnd(user: string, addr: string, host: string, port: string)
    requires Trimmed(user + "@" + addr) && user != "" && addr != "" && ResolvesTo(addr, host, port)
    ensures !IsSpace(user[0])
    ensures var address := JoinHostPort(host, port); address != "" && !IsSpace(address[|address| - 1])
  {
    var target := user + "@" + addr;
    assert target[0] == user[0];
    assert target[|target| - 1] == addr[|addr| - 1];
    var front := if ':' in host then "[" + host + "]" else host;
    assert JoinHostPort(host, port) == front + ":" + port;
    if port != "" && port != DEFAULT_PORT {
      assert addr[|addr| - 1] == port[|port| - 1];
    }
  }

  /*** Parsing a printed lighthouse ***/

  lemma TrimmedTail(front: string, tail: string)
    requires tail != "" && !IsSpace(tail[0]) && !IsSpace(tail[|tail| - 1])
    ensures TrimSpace(front + tail) == TrimLeft(front) + tail
  {
    TrimLeftOf(front, tail);
    var s := TrimLeft(front) + tail;
    assert s[|s| - 1] == tail[|tail| - 1];
    TrimRightOfTrimmed(s);
  }

  lemma TrimRightOfTrimmed(s: string)
    requires s != "" && !IsSpace(s[|s| - 1])
    ensures TrimRight(s) == s
  {
  }

  lemma TrimmedPrint(front: string, rest: string)
    requires rest != "" && !IsSpace(rest[|rest| - 1])
    ensures TrimSpace(front + "=" + rest) == TrimLeft(front) + "=" + rest
  {
    var tail := "=" + rest;
    assert tail[0] == '=' && tail[|tail| - 1] == rest[|rest| - 1];
    TrimmedTail(front, tail);
    assert front + "=" + rest == front + tail;
    assert TrimLeft(front) + "=" + rest == TrimLeft(front) + tail;
  }

  lemma TrimmedRest(rest: string)
    requires rest != "" && !IsSpace(rest[|rest| - 1])
    ensures TrimSpace(rest) == TrimLeft(rest)
  {
    TrimLeftParts(rest);
    assert TrimLeft(rest) != "" ==> TrimLeft(rest)[|TrimLeft(rest)| - 1] == rest[|rest| - 1];
  }

  // Cutting `front=rest` gives a trimmed name and, because `rest` ends with a non-space, its left-trimmed rest.
  lemma PrintedCut(front: string, rest: string)
    requires '=' !in front && rest != "" && !IsSpace(rest[|rest| - 1])
    ensures NameAndTarget(TrimSpace(front + "=" + rest)) == (TrimSpace(front), TrimLeft(rest))
  {
    TrimmedPrint(front, rest);
    TrimLeftParts(front);
    CutAt(TrimLeft(front), '=', rest);
    TrimSpaceOfTrimLeft(front);
    TrimmedRest(rest);
  }

  function WithName(name: string, user: string, resolved: Result<(string, string), ParseError>)
    : Result<Lighthouse, ParseError>
  {
    match resolved
    case Err(e) => Err(e)
    case Ok((host, port)) => Ok(Lighthouse(if name == "" then host else name, user, JoinHostPort(host, port)))
  }

  lemma ReparsedPrint(l: Lighthouse)
    requires Printable(l) && '=' !in l.name
    ensures ParseOne(TrimSpace(Print(l))) ==
            WithName(TrimSpace(l.name), l.user, SplitHostPortDefault(l.address, DEFAULT_PORT))
  {
    var target := l.user + "@" + l.address;
    PrintedCut(l.name, target);
    assert Print(l) == l.name + "=" + target;
    assert TrimLeft(target) == target by {
      assert target[0] == l.user[0];
    }
    CutAt(l.user, '@', l.address);
  }

  // Normalising an address again changes nothing exactly for plain addresses.
  lemma StoredAddressIsStableIffPlain(addr: string, host: string, port: string)
    requires SplitHostPortDefault(addr, DEFAULT_PORT) == Ok((host, port))
    ensures var again := SplitHostPortDefault(JoinHostPort(host, port), DEFAULT_PORT);
      PlainAddr(addr) <==> again.Ok? && JoinHostPort(again.value.0, again.value.1) == JoinHostPort(host, port)
  {
    var stored := JoinHostPort(host, port);
    Resolved(addr, host, port);
    HostRecoveredIffPlain(addr, host, port);
    if PlainAddr(addr) {
      TrimBracketsIsNoOp(host);
    } else if SplitHostPortDefault(stored, DEFAULT_PORT).Ok? {
      var again := SplitHostPortDefault(stored, DEFAULT_PORT).value;
      Resolved(stored, again.0, again.1);
      if Spells(addr, host, port) {
        SpelledIsPlain(addr, host, port);
      }
      UnplainIsUnstable(addr, again.0, again.1);
    }
  }

  lemma UnplainIsUnstable(addr: string, host: string, port: string)
    requires !BracketFree(addr) && ResolvesTo(JoinHostPort(addr, DEFAULT_PORT), host, port)
    ensures JoinHostPort(host, port) != JoinHostPort(addr, DEFAULT_PORT)
  {
    DefaultPortIsText();
    if JoinHostPort(host, port) == JoinHostPort(addr, DEFAULT_PORT) {
      JoinIsInjectiveInBoth(host, port, addr, DEFAULT_PORT);
    }
  }

  // Joining what an address resolves to drops at most its two brackets.
  lemma JoinIsLong(addr: string, host: string, port: string)
    requires SplitHostPortDefault(addr, DEFAULT_PORT) == Ok((host, port))
    ensures |JoinHostPort(host, port)| >= |addr| - 2
  {
    Resolved(addr, host, port);
  }

  // A name holding `=` (a host such as `a=b` that stood in for an empty name) is read back differently.
  lemma EqualsInNameBreaks(l: Lighthouse)
    requires Printable(l) && '=' in l.name
    ensures ParseOne(TrimSpace(Print(l))) != Ok(l)
  {
    CutParts(l.name, '=');
    var front := Cut(l.name, '=').value.0;
    var back := Cut(l.name, '=').value.1;
    var tail := "=" + l.user + "@" + l.address;
    var rest := back + tail;
    assert Print(l) == front + "=" + rest;
    PrintedCut(front, rest);
    TrimLeftOf(back, tail);
    TrimSpaceParts(front);
    if ParseOne(TrimSpace(Print(l))) == Ok(l) {
      var host, port := ParsedParts(TrimSpace(Print(l)), l);
      assert l.name != TrimSpace(front);
      assert l.user + "@" + AddrOf(TrimSpace(Print(l))) == TrimLeft(back) + tail;
      LongerAddress(AddrOf(TrimSpace(Print(l))), host, port, l.user, TrimLeft(back), l.address);
    }
  }

  // Such names are accepted: a host that stands in for an empty name may hold one.
  lemma EqualsInNameIsAccepted(host: string)
    requires host != "" && ':' !in host && !IsSpace(host[|host| - 1])
    ensures ParseOne("=u@" + host) == Ok(Lighthouse(host, "u", host + ":" + DEFAULT_PORT))
  {
    var target := "u@" + host;
    assert target == "u" + "@" + host && target[0] == 'u';
    assert "=u@" + host == "" + "=" + target;
    CutAt("", '=', target);
    TrimSpaceOfTrimmed(target);
    TrimSpaceOfTrimmed("");
    assert NameAndTarget("=u@" + host) == ("", target);
    CutAt("u", '@', host);
    UnsplitHost(host);
  }

  // So `=u@a=b` is accepted and its printed form is not read back.
  lemma EqualsInHostBreaks()
    ensures ParseOne("=u@" + "a=b") == Ok(Lighthouse("a=b", "u", "a=b" + ":" + DEFAULT_PORT))
    ensures var l := Lighthouse("a=b", "u", "a=b" + ":" + DEFAULT_PORT);
      ParseOne(TrimSpace(Print(l))) != Ok(l)
  {
    EqualsInNameIsAccepted("a=b");
    var l := Lighthouse("a=b", "u", "a=b" + ":" + DEFAULT_PORT);
    assert l.name[1] == '=' && l.address[|l.address| - 1] == '2';
    EqualsInNameBreaks(l);
  }

  lemma LongerAddress(addr: string, host: string, port: string, user: string, back: string, address: string)
    requires SplitHostPortDefault(addr, DEFAULT_PORT) == Ok((host, port))
    requires '@' !in user && user != "" && user + "@" + addr == back + ("=" + user + "@" + address)
    ensures JoinHostPort(host, port) != address
  {
    JoinIsLong(addr, host, port);
    assert back + ("=" + user + "@" + address) == back + "=" + user + "@" + address;
    SecondAt(user, addr, back, address);
  }

  // If the first `@` of `back=user@address` follows `user`, the text after it is much longer than the address.
  lemma SecondAt(user: string, addr: string, back: string, address: string)
    requires '@' !in user && user != ""
    requires user + "@" + addr == back + "=" + user + "@" + address
    ensures |addr| >= |address| + |user| + 2
  {
    var s := user + "@" + addr;
    var t := back + "=" + user + "@" + address;
    assert s[|user|] == '@';
    assert t[|back|] == '=';
    assert forall k | |back| < k <= |back| + |user| :: t[k] == user[k - |back| - 1];
  }

  lemma BlankNameIsHost(value: string, l: Lighthouse, addr: string, host: string, port: string)
    requires Trimmed(value) && Parts(value, l, addr, host, port) && TrimSpace(l.name) == ""
    ensures l.name == host
  {
    var name := NameAndTarget(value).0;
    if Cut(value, '=').Some? {
      TrimSpaceParts(Cut(value, '=').value.0);
    }
    TrimSpaceOfTrimmed(name);
  }

  // Parsing, printing and parsing again gives the same lighthouse exactly when the name is stable
  // and the address was plain.
  lemma PrintParsesBackIff(value: string, l: Lighthouse)
    requires Trimmed(value) && ParseOne(value) == Ok(l)
    ensures ParseOne(TrimSpace(Print(l))) == Ok(l) <==> StableName(l.name) && PlainAddr(AddrOf(value))
  {
    var host, port := ParsedParts(value, l);
    var addr := AddrOf(value);
    TargetEnds(value, l, addr, host, port);
    if '=' in l.name {
      EqualsInNameBreaks(l);
    } else {
      ReparsedPrint(l);
      StoredAddressIsStableIffPlain(addr, host, port);
      if PlainAddr(addr) {
        HostRecoveredIffPlain(addr, host, port);
        Resolved(addr, host, port);
        PlainAddrIffPlainHost(addr, host, port);
        TrimBracketsIsNoOp(host);
        if TrimSpace(l.name) == "" {
          BlankNameIsHost(value, l, addr, host, port);
        }
      }
    }
  }

  /*** All configured values ***/

  // The values that are not blank, trimmed.
  function NonBlank(values: seq<string>): seq<string> {
    if values == [] then []
    else
      var last := TrimSpace(values[|values| - 1]);
      NonBlank(values[..|values| - 1]) + (if last == "" then [] else [last])
  }

  ghost predicate DistinctNames(ls: seq<Lighthouse>) {
    forall i, j | 0 <= i < j < |ls| :: ls[i].name != ls[j].name
  }

  // One lighthouse per non-blank value, in order, with distinct names.
  ghost predicate Accepts(texts: seq<string>, ls: seq<Lighthouse>) {
    && |ls| == |texts| && DistinctNames(ls)
    && forall i | 0 <= i < |texts| :: ParseOne(texts[i]) == Ok(ls[i])
  }

  lemma AcceptsIsUnique(texts: seq<string>, a: seq<Lighthouse>, b: seq<Lighthouse>)
    requires Accepts(texts, a) && Accepts(texts, b)
    ensures a == b
  {
    assert forall i | 0 <= i < |a| :: Ok(a[i]) == Ok(b[i]) == ParseOne(texts[i]);
  }

  lemma {:induction false} NonBlankIsPrefix(values: seq<string>, i: nat)
    requires i <= |values|
    ensures NonBlank(values[..i]) <= NonBlank(values)
  {
    if i == |values| {
      assert values[..i] == values;
    } else {
      var front := values[..|values| - 1];
      NonBlankIsPrefix(front, i);
      assert front[..i] == values[..i];
    }
  }

  lemma NonBlankStep(values: seq<string>, i: nat)
    requires i < |values|
    ensures NonBlank(values[..i + 1]) ==
            NonBlank(values[..i]) + (if TrimSpace(values[i]) == "" then [] else [TrimSpace(values[i])])
    ensures NonBlank(values[..i + 1]) <= NonBlank(values)
  {
    assert values[..i + 1][..i] == values[..i];
    NonBlankIsPrefix(values, i + 1);
  }

  function Names(ls: seq<Lighthouse>): set<string> {
    set i | 0 <= i < |ls| :: ls[i].name
  }

  lemma AcceptsSnoc(texts: seq<string>, ls: seq<Lighthouse>, text: string, l: Lighthouse)
    requires Accepts(texts, ls) && ParseOne(text) == Ok(l) && l.name !in Names(ls)
    ensures Accepts(texts + [text], ls + [l])
    ensures Names(ls + [l]) == Names(ls) + {l.name}
  {
    NamesSnoc(ls, l);
    assert forall i | 0 <= i < |ls| :: ls[i].name in Names(ls);
  }

  lemma NamesSnoc(ls: seq<Lighthouse>, l: Lighthouse)
    ensures Names(ls + [l]) == Names(ls) + {l.name}
  {
    var more := ls + [l];
    forall name
      ensures name in Names(more) <==> name in Names(ls) || name == l.name
    {
      if name in Names(ls) {
        var i :| 0 <= i < |ls| && ls[i].name == name;
        assert more[i].name == name;
      }
      if name == l.name {
        assert more[|ls|].name == name;
      }
    }
  }

  // The first value that cannot be taken, and why; the ones before it gave `ls`.
  ghost predicate FailsAt(texts: seq<string>, i: nat, ls: seq<Lighthouse>, e: ParseError) {
    && i < |texts| && Accepts(texts[..i], ls)
    && match ParseOne(texts[i])
       case Err(why) => e == why
       case Ok(l) => l.name in Names(ls) && e == DuplicateName(l.name)
  }

  lemma FailingRejects(texts: seq<string>, i: nat, ls: seq<Lighthouse>, e: ParseError)
    requires FailsAt(texts, i, ls, e)
    ensures forall all: seq<Lighthouse> :: !Accepts(texts, all)
  {
    forall all: seq<Lighthouse> | Accepts(texts, all)
      ensures false
    {
      assert ParseOne(texts[i]) == Ok(all[i]);
      AcceptsPrefix(texts, all, i, ls);
    }
  }

  lemma AcceptsPrefix(texts: seq<string>, all: seq<Lighthouse>, i: nat, ls: seq<Lighthouse>)
    requires i <= |texts| && Accepts(texts, all) && Accepts(texts[..i], ls)
    ensures ls == all[..i]
  {
    AcceptsIsUnique(texts[..i], ls, all[..i]);
  }

  // Accepts exactly the inputs with at least one non-blank value, every one well-formed, and all
  // names distinct; otherwise the error is that of the first value that cannot be taken.
  method ParseLighthouses(values: seq<string>) returns (r: Result<seq<Lighthouse>, ParseError>)
    ensures r.Ok? ==> r.value != [] && Accepts(NonBlank(values), r.value)
    ensures r.Err? && NonBlank(values) != [] ==> exists i: nat, ls :: FailsAt(NonBlank(values), i, ls, r.error)
    ensures NonBlank(values) == [] <==> r == Err(NoLighthouses)
  {
    var targets: seq<Lighthouse> := [];
    var seen: set<string> := {};
    for i := 0 to |values|
      invariant Accepts(NonBlank(values[..i]), targets)
      invariant seen == Names(targets)
    {
      NonBlankStep(values, i);
      ghost var part := NonBlank(values[..i]);
      var value := TrimSpace(values[i]);
      if value == "" {
        continue;
      }
      var parsed := ParseOne(value);
      if parsed.Err? {
        TextAt(part, NonBlank(values), value);
        assert FailsAt(NonBlank(values), |part|, targets, parsed.error);
        ParseErrorKinds(value);
        return Err(parsed.error);
      }
      if parsed.value.name in seen {
        TextAt(part, NonBlank(values), value);
        assert FailsAt(NonBlank(values), |part|, targets, DuplicateName(parsed.value.name));
        return Err(DuplicateName(parsed.value.name));
      }
      AcceptsSnoc(part, targets, value, parsed.value);
      seen := seen + {parsed.value.name};
      targets := targets + [parsed.value];
    }
    assert values[..|values|] == values;
    if |targets| == 0 {
      return Err(NoLighthouses);
    }
    return Ok(targets);
  }

  lemma ParseErrorKinds(value: string)
    ensures ParseOne(value) != Err(NoLighthouses)
  {
  }

  lemma TextAt(part: seq<string>, texts: seq<string>, text: string)
    requires part + [text] <= texts
    ensures |part| < |texts| && texts[|part|] == text && texts[..|part|] == part
  {
    assert (part + [text])[|part|] == text;
  }

  function PrintAll(ls: seq<Lighthouse>): seq<string> {
    seq(|ls|, i requires 0 <= i < |ls| => Print(ls[i]))
  }

  lemma {:induction false} TrimRightKeeps(s: string, i: nat)
    requires i < |s| && !IsSpace(s[i])
    ensures |TrimRight(s)| > i
  {
    if !IsSpace(s[|s| - 1]) {
    } else {
      TrimRightKeeps(s[..|s| - 1], i);
    }
  }

  lemma PrintIsNotBlank(l: Lighthouse)
    ensures TrimSpace(Print(l)) != ""
  {
    var tail := "=" + Target(l);
    assert Print(l) == l.name + tail;
    TrimLeftOf(l.name, tail);
    var s := TrimLeft(l.name) + tail;
    assert s[|TrimLeft(l.name)|] == '=';
    TrimRightKeeps(s, |TrimLeft(l.name)|);
  }

  lemma {:induction false} NonBlankOfPrinted(ls: seq<Lighthouse>)
    ensures |NonBlank(PrintAll(ls))| == |ls|
    ensures forall i | 0 <= i < |ls| :: NonBlank(PrintAll(ls))[i] == TrimSpace(Print(ls[i]))
  {
    if ls == [] {
    } else {
      var front := ls[..|ls| - 1];
      NonBlankOfPrinted(front);
      PrintIsNotBlank(ls[|ls| - 1]);
      assert PrintAll(ls)[..|ls| - 1] == PrintAll(front);
    }
  }

  lemma {:induction false} NonBlankIsTrimmed(values: seq<string>)
    ensures forall text <- NonBlank(values) :: Trimmed(text)
  {
    if values == [] {
    } else {
      NonBlankIsTrimmed(values[..|values| - 1]);
      TrimSpaceParts(values[|values| - 1]);
    }
  }

  // Printing a whole parsed configuration and parsing it again gives the identical list exactly
  // when every name is stable and every address was plain.
  lemma ConfigurationRoundTripIff(values: seq<string>, ls: seq<Lighthouse>)
    requires Accepts(NonBlank(values), ls)
    ensures Accepts(NonBlank(PrintAll(ls)), ls) <==>
            forall i | 0 <= i < |ls| :: StableName(ls[i].name) && PlainAddr(AddrOf(NonBlank(values)[i]))
  {
    NonBlankIsTrimmed(values);
    NonBlankOfPrinted(ls);
    forall i | 0 <= i < |ls|
      ensures ParseOne(NonBlank(PrintAll(ls))[i]) == Ok(ls[i]) <==>
              StableName(ls[i].name) && PlainAddr(AddrOf(NonBlank(values)[i]))
    {
      PrintParsesBackIff(NonBlank(values)[i], ls[i]);
    }
  }
}
