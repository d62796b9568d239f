/** `parseLighthouses`: from `name=user@host:port` texts to lighthouse targets, and back. */
module Lighthouses {
  import opened Basics
  import opened HostPort
  import opened Model

  const DEFAULT_PORT := "4222"

  /*** strings.TrimSpace, strings.Cut, strings.Trim(_, "[]"), strings.Count ***/

  // Unicode's White_Space property.
  predicate IsSpace(c: char) {
    || '\t' <= c <= '\r' || c == ' ' || c == '\U{85}' || c == '\U{A0}' || c == '\U{1680}'
    || '\U{2000}' <= c <= '\U{200A}' || c == '\U{2028}' || c == '\U{2029}' || c == '\U{202F}'
    || c == '\U{205F}' || c == '\U{3000}'
  }

  lemma AsciiSpaces(c: char)
    requires c < '\U{80}'
    ensures IsSpace(c) <==> c in "\t\n\U{0B}\U{0C}\r "
  {
  }

  function TrimLeft(s: string): string {
    if s != "" && IsSpace(s[0]) then TrimLeft(s[1..]) else s
  }

  function TrimRight(s: string): string {
    if s != "" && IsSpace(s[|s| - 1]) then TrimRight(s[..|s| - 1]) else s
  }

  function TrimSpace(s: string): string {
    TrimRight(TrimLeft(s))
  }

  predicate Trimmed(s: string) {
    s == "" || (!IsSpace(s[0]) && !IsSpace(s[|s| - 1]))
  }

  function Cut(s: string, sep: char): Option<(string, string)> {
    var i := First(s, sep);
    if i == |s| then None else Some((s[..i], s[i + 1..]))
  }

  function TrimBrackets(s: string): string {
    TrimBracketsRight(TrimBracketsLeft(s))
  }

  function TrimBracketsLeft(s: string): string {
    if s != "" && s[0] in "[]" then TrimBracketsLeft(s[1..]) else s
  }

  function TrimBracketsRight(s: string): string {
    if s != "" && s[|s| - 1] in "[]" then TrimBracketsRight(s[..|s| - 1]) else s
  }

  function Count(s: string, c: char): nat {
    if s == "" then 0 else (if s[0] == c then 1 else 0) + Count(s[1..], c)
  }

  /*** One lighthouse ***/

  datatype ParseError = Malformed | AmbiguousIPv6 | DuplicateName(name: string) | NoLighthouses

  function SplitHostPortDefault(value: string, defaultPort: string): Result<(string, string), ParseError> {
    match SplitHostPort(value)
    case Ok((host, port)) => Ok((TrimBrackets(host), port))
    case Err(_) =>
      if ':' in value && Count(value, ':') > 1 then Err(AmbiguousIPv6) else Ok((value, defaultPort))
  }

  // The optional name and the target of a trimmed text.
  function NameAndTarget(value: string): (string, string) {
    match Cut(value, '=')
    case Some((before, after)) => (TrimSpace(before), TrimSpace(after))
    case None => ("", value)
  }

  function ParseOne(value: string): Result<Lighthouse, ParseError> {
    var (name, target) := NameAndTarget(value);
    match Cut(target, '@')
    case None => Err(Malformed)
    case Some((user, addr)) =>
      if user == "" || addr == "" then Err(Malformed) else
      match SplitHostPortDefault(addr, DEFAULT_PORT)
      case Err(e) => Err(e)
      case Ok((host, port)) => Ok(Lighthouse(if name == "" then host else name, user, JoinHostPort(host, port)))
  }

  // The address text of an accepted value.
  function AddrOf(value: string): string {
    match Cut(NameAndTarget(value).1, '@')
    case None => ""
    case Some((_, addr)) => addr
  }

  /*** Which addresses survive the trip through JoinHostPort ***/

  // Bracket-free, or `[host]:port`.
  ghost predicate PlainAddr(addr: string) {
    BracketFree(addr) || exists host, port :: BracketFree(host) && PortText(port) && addr == "[" + host + "]:" + port
  }

  lemma {:induction false} CountOf(s: string, c: char)
    ensures Count(s, c) == 0 <==> c !in s
  {
    if s == "" {
    } else {
      CountOf(s[1..], c);
      assert s == [s[0]] + s[1..];
    }
  }

  // More than one means two of them.
  lemma {:induction false} CountTwo(s: string, c: char)
    ensures Count(s, c) > 1 <==> exists i, j :: 0 <= i < j < |s| && s[i] == s[j] == c
  {
    if s == "" {
    } else {
      var rest := s[1..];
      CountTwo(rest, c);
      CountOf(rest, c);
      if i, j :| 0 <= i < j < |rest| && rest[i] == rest[j] == c {
        assert s[i + 1] == s[j + 1] == c;
      }
      if s[0] == c && c in rest {
        var j :| 0 <= j < |rest| && rest[j] == c;
        assert s[0] == s[j + 1] == c;
      }
      if i, j :| 0 <= i < j < |s| && s[i] == s[j] == c {
        assert rest[j - 1] == c;
        assert i > 0 ==> rest[i - 1] == rest[j - 1] == c;
      }
    }
  }

  lemma {:induction false} TrimBracketsIsNoOp(s: string)
    requires BracketFree(s)
    ensures TrimBrackets(s) == s
  {
    assert s != "" ==> s[0] in s && s[|s| - 1] in s;
  }

  // What an address resolves to: its spelling, or the whole text with the default port.
  ghost predicate ResolvesTo(addr: string, host: string, port: string) {
    || Spells(addr, host, port)
    || (SplitHostPort(addr).Err? && host == addr && port == DEFAULT_PORT && Count(addr, ':') <= 1)
  }

  lemma Resolved(addr: string, host: string, port: string)
    requires SplitHostPortDefault(addr, DEFAULT_PORT) == Ok((host, port))
    ensures ResolvesTo(addr, host, port)
  {
    CountOf(addr, ':');
    match SplitHostPort(addr)
    case Ok((h, p)) =>
      SplitIsSpelled(addr, h, p);
      TrimBracketsIsNoOp(h);
    case Err(_) =>
  }

  lemma SpelledIsPlain(addr: string, host: string, port: string)
    requires Spells(addr, host, port)
    ensures PlainAddr(addr)
  {
    if addr == host + ":" + port {
      assert BracketFree(addr);
    }
  }

  lemma UnsplitPlainIsBracketFree(addr: string)
    requires SplitHostPort(addr).Err? && PlainAddr(addr)
    ensures BracketFree(addr)
  {
    if h, p :| BracketFree(h) && PortText(p) && addr == "[" + h + "]:" + p {
      SpelledBracketsSplit(h, p);
    }
  }

  lemma DefaultPortIsText()
    ensures PortText(DEFAULT_PORT)
  {
    assert forall c <- DEFAULT_PORT :: c == '4' || c == '2';
  }

  lemma PlainAddrIffPlainHost(addr: string, host: string, port: string)
    requires ResolvesTo(addr, host, port)
    ensures PlainAddr(addr) <==> BracketFree(host)
    ensures PortText(port)
  {
    if Spells(addr, host, port) {
      SpelledIsPlain(addr, host, port);
    } else {
      DefaultPortIsText();
      if PlainAddr(addr) {
        UnsplitPlainIsBracketFree(addr);
      }
    }
  }

  // The stored address gives back the very host that was parsed exactly for plain addresses.
  lemma HostRecoveredIffPlain(addr: string, host: string, port: string)
    requires SplitHostPortDefault(addr, DEFAULT_PORT) == Ok((host, port))
    ensures SplitHostPort(JoinHostPort(host, port)) == Ok((host, port)) <==> PlainAddr(addr)
  {
    Resolved(addr, host, port);
    PlainAddrIffPlainHost(addr, host, port);
    SplitOfJoin(host, port);
  }

  // A bracketed host without a colon or port: accepted, but stored so that it splits to the bare host.
  ghost predicate BracketedNoPort(addr: string) {
    exists host :: BracketFree(host) && ':' !in host && addr == "[" + host + "]"
  }

  // Splitting the stored address fails on exactly the other accepted addresses; service
  // discovery then has no targets at all, whatever the peers are.
  lemma StoredAddressSplitsIff(addr: string, host: string, port: string)
    requires SplitHostPortDefault(addr, DEFAULT_PORT) == Ok((host, port))
    ensures SplitHostPort(JoinHostPort(host, port)).Ok? <==> PlainAddr(addr) || BracketedNoPort(addr)
  {
    Resolved(addr, host, port);
    if PlainAddr(addr) {
      HostRecoveredIffPlain(addr, host, port);
    } else {
      if Spells(addr, host, port) {
        SpelledIsPlain(addr, host, port);
      }
      DefaultPortIsText();
      UnplainAddressSplits(addr);
    }
  }

  // Two families of accepted values that show both failures: one is stored so that it splits to
  // another host than the one parsed, the other so that it does not split at all.
  lemma BracketedHostIsStoredBare(h: string, host: string)
    requires BracketFree(h) && ':' !in h && host == "[" + h + "]"
    ensures ParseOne("n=u@" + host) == Ok(Lighthouse("n", "u", host + ":" + DEFAULT_PORT))
    ensures SplitHostPort(host + ":" + DEFAULT_PORT) == Ok((h, DEFAULT_PORT))
  {
    assert ':' !in host && host[|host| - 1] == ']';
    StoredAs(host);
    DefaultPortIsText();
    SpelledBracketsSplit(h, DEFAULT_PORT);
    assert host + ":" + DEFAULT_PORT == "[" + h + "]:" + DEFAULT_PORT;
  }

  lemma StrayBracketIsStoredUnsplittable(host: string)
    requires host != "" && ':' !in host && !IsSpace(host[|host| - 1])
    requires host[0] != '[' && ']' in host
    ensures ParseOne("n=u@" + host) == Ok(Lighthouse("n", "u", host + ":" + DEFAULT_PORT))
    ensures SplitHostPort(host + ":" + DEFAULT_PORT).Err?
  {
    StoredAs(host);
    BracketDoesNotSplit(host + ":" + DEFAULT_PORT);
  }

  lemma BracketDoesNotSplit(s: string)
    requires ']' in s && s[0] != '['
    ensures SplitHostPort(s).Err?
  {
    match SplitHostPort(s)
    case Ok((host, port)) => SplitIsSpelled(s, host, port);
    case Err(_) =>
  }

  lemma StoredAs(host: string)
    requires host != "" && ':' !in host && !IsSpace(host[|host| - 1])
    ensures ParseOne("n=u@" + host) == Ok(Lighthouse("n", "u", host + ":" + DEFAULT_PORT))
  {
    var target := "u@" + host;
    assert target == "u" + "@" + host && target[0] == 'u';
    assert "n=u@" + host == "n" + "=" + target;
    CutAt("n", '=', target);
    TrimSpaceOfTrimmed(target);
    TrimSpaceOfTrimmed("n");
    assert NameAndTarget("n=u@" + host) == ("n", target);
    CutAt("u", '@', host);
    UnsplitHost(host);
  }

  lemma UnsplitHost(host: string)
    requires ':' !in host
    ensures SplitHostPortDefault(host, DEFAULT_PORT) == Ok((host, DEFAULT_PORT))
  {
    LastColonMissing(host);
  }

  lemma LastColonMissing(s: string)
    requires ':' !in s
    ensures SplitHostPort(s) == Err(MissingPort)
  {
  }

  lemma UnplainAddressSplits(addr: string)
    requires !BracketFree(addr)
    ensures SplitHostPort(JoinHostPort(addr, DEFAULT_PORT)).Ok? <==> BracketedNoPort(addr)
  {
    var stored := JoinHostPort(addr, DEFAULT_PORT);
    match SplitHostPort(stored) {
      case Ok((h, p)) =>
        SplitIsSpelled(stored, h, p);
        UnplainSpelled(addr, h, p);
      case Err(_) =>
        if BracketedNoPort(addr) {
          BracketedSplits(addr);
        }
    }
  }

  lemma BracketedSplits(addr: string)
    requires BracketedNoPort(addr)
    ensures SplitHostPort(JoinHostPort(addr, DEFAULT_PORT)).Ok?
  {
    var g :| BracketFree(g) && ':' !in g && addr == "[" + g + "]";
    DefaultPortIsText();
    SpelledBracketsSplit(g, DEFAULT_PORT);
    assert ':' !in addr;
    assert JoinHostPort(addr, DEFAULT_PORT) == "[" + g + "]:" + DEFAULT_PORT;
  }

  lemma UnplainSpelled(addr: string, h: string, p: string)
    requires !BracketFree(addr) && Spells(JoinHostPort(addr, DEFAULT_PORT), h, p)
    ensures BracketedNoPort(addr)
  {
    DefaultPortIsText();
    var stored := JoinHostPort(addr, DEFAULT_PORT);
    var front := if ':' in addr then "[" + addr + "]" else addr;
    var spelled := if ':' !in h && stored == h + ":" + p then h else "[" + h + "]";
    assert stored == front + ":" + DEFAULT_PORT && stored == spelled + ":" + p;
    SameColon(front, DEFAULT_PORT, spelled, p);
    UnplainFront(addr, front, spelled, h);
  }

  lemma UnplainFront(addr: string, front: string, spelled: string, h: string)
    requires !BracketFree(addr) && BracketFree(h)
    requires front == if ':' in addr then "[" + addr + "]" else addr
    requires front == spelled && (spelled == h || spelled == "[" + h + "]")
    ensures BracketedNoPort(addr)
  {
    Bracketing(addr);
    Bracketing(h);
    if ':' !in addr {
      assert forall c <- h :: c in "[" + h + "]";
    }
  }

  lemma Bracketing(s: string)
    ensures '[' in "[" + s + "]" && ("[" + s + "]")[1..|s| + 1] == s
  {
    assert ("[" + s + "]")[0] == '[';
  }

  /*** Trimming ***/

  lemma {:induction false} TrimLeftOf(a: string, b: string)
    requires b != "" && !IsSpace(b[0])
    ensures TrimLeft(a + b) == TrimLeft(a) + b
  {
    if a == "" {
      assert a + b == b;
    } else if IsSpace(a[0]) {
      assert (a + b)[1..] == a[1..] + b;
      TrimLeftOf(a[1..], b);
    }
  }

  lemma {:induction false} TrimLeftParts(s: string)
    ensures TrimLeft(s) == "" || !IsSpace(TrimLeft(s)[0])
    ensures |TrimLeft(s)| <= |s| && s[|s| - |TrimLeft(s)|..] == TrimLeft(s)
    ensures forall c <- TrimLeft(s) :: c in s
  {
    if s == "" || !IsSpace(s[0]) {
    } else {
      TrimLeftParts(s[1..]);
    }
  }

  lemma {:induction false} TrimRightParts(s: string)
    ensures TrimRight(s) == "" || !IsSpace(TrimRight(s)[|TrimRight(s)| - 1])
    ensures TrimRight(s) <= s
  {
    if s == "" || !IsSpace(s[|s| - 1]) {
    } else {
      TrimRightParts(s[..|s| - 1]);
    }
  }

  lemma TrimSpaceParts(s: string)
    ensures Trimmed(TrimSpace(s))
    ensures forall c <- TrimSpace(s) :: c in s
  {
    TrimLeftParts(s);
    TrimRightParts(TrimLeft(s));
  }

  // Trimming cuts off spaces at both ends and nothing else.
  lemma {:induction false} TrimLeftCuts(s: string)
    ensures |TrimLeft(s)| <= |s| && TrimLeft(s) == s[|s| - |TrimLeft(s)|..]
    ensures forall c <- s[..|s| - |TrimLeft(s)|] :: IsSpace(c)
  {
    if s == "" || !IsSpace(s[0]) {
    } else {
      TrimLeftCuts(s[1..]);
      var cut := |s| - |TrimLeft(s)|;
      assert s[..cut] == [s[0]] + s[1..][..cut - 1];
    }
  }

  lemma {:induction false} TrimRightCuts(s: string)
    ensures |TrimRight(s)| <= |s| && TrimRight(s) == s[..|TrimRight(s)|]
    ensures forall c <- s[|TrimRight(s)|..] :: IsSpace(c)
  {
    if s == "" || !IsSpace(s[|s| - 1]) {
    } else {
      var front := s[..|s| - 1];
      TrimRightCuts(front);
      assert s[|TrimRight(s)|..] == front[|TrimRight(s)|..] + [s[|s| - 1]];
    }
  }

  lemma TrimSpaceCuts(s: string) returns (left: string, right: string)
    ensures s == left + TrimSpace(s) + right && Trimmed(TrimSpace(s))
    ensures forall c <- left + right :: IsSpace(c)
  {
    TrimLeftCuts(s);
    TrimRightCuts(TrimLeft(s));
    TrimSpaceParts(s);
    left, right := s[..|s| - |TrimLeft(s)|], TrimLeft(s)[|TrimSpace(s)|..];
  }

  lemma TrimSpaceOfTrimmed(s: string)
    requires Trimmed(s)
    ensures TrimSpace(s) == s
  {
  }

  lemma TrimSpaceOfTrimLeft(s: string)
    ensures TrimSpace(TrimLeft(s)) == TrimSpace(s)
  {
    TrimLeftParts(s);
  }

  lemma CutAt(a: string, sep: char, b: string)
    requires sep !in a
    ensures Cut(a + [sep] + b, sep) == Some((a, b))
  {
    var s := a + [sep] + b;
    assert s[..|a|] == a && s[|a| + 1..] == b;
    FirstIs(s, sep, |a|);
  }

  lemma CutParts(s: string, sep: char)
    ensures Cut(s, sep).Some? ==> s == Cut(s, sep).value.0 + [sep] + Cut(s, sep).value.1 && sep !in Cut(s, sep).value.0
    ensures Cut(s, sep).None? ==> sep !in s
  {
    assert s[..|s|] == s;
  }
}
