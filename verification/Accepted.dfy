/** What each form of a configured lighthouse is parsed to, or why it is refused. */
module Accepted {
  import opened Basics
  import opened HostPort
  import opened Model
  import opened Lighthouses
  import opened RoundTrip

  predicate GoodName(name: string) {
    name != "" && Trimmed(name) && '=' !in name
  }

  predicate GoodTarget(user: string, addr: string) {
    && user != "" && '@' !in user && !IsSpace(user[0])
    && addr != "" && !IsSpace(addr[|addr| - 1])
  }

  lemma NamedValue(name: string, user: string, addr: string)
    requires GoodName(name) && GoodTarget(user, addr)
    ensures ParseOne(name + "=" + user + "@" + addr) == WithName(name, user, SplitHostPortDefault(addr, DEFAULT_PORT))
  {
    var l := Lighthouse(name, user, addr);
    ReparsedPrint(l);
    var value := name + "=" + user + "@" + addr;
    assert Print(l) == name + "=" + (user + "@" + addr) == value;
    assert value[0] == name[0] && value[|value| - 1] == addr[|addr| - 1];
    TrimSpaceOfTrimmed(value);
    TrimSpaceOfTrimmed(name);
  }

  lemma UnnamedValue(user: string, addr: string)
    requires GoodTarget(user, addr) && '=' !in user && '=' !in addr
    ensures ParseOne(user + "@" + addr) == WithName("", user, SplitHostPortDefault(addr, DEFAULT_PORT))
  {
    var value := user + "@" + addr;
    assert First(value, '=') == |value|;
    CutAt(user, '@', addr);
  }

  /*** The address ***/

  lemma AddressWithPort(addr: string, host: string, port: string)
    requires Spells(addr, host, port)
    ensures SplitHostPortDefault(addr, DEFAULT_PORT) == Ok((host, port))
  {
    SplitIffSpelled(addr, host, port);
    TrimBracketsIsNoOp(host);
  }

  lemma AddressWithoutPort(addr: string)
    requires ':' !in addr
    ensures SplitHostPortDefault(addr, DEFAULT_PORT) == Ok((addr, DEFAULT_PORT))
    ensures JoinHostPort(addr, DEFAULT_PORT) == addr + ":4222"
  {
    LastColonMissing(addr);
  }

  lemma AddressWithColons(addr: string, i: nat, j: nat)
    requires BracketFree(addr) && i < j < |addr| && addr[i] == ':' && addr[j] == ':'
    ensures SplitHostPortDefault(addr, DEFAULT_PORT) == Err(AmbiguousIPv6)
  {
    SplitByColons(addr);
    CountTwo(addr, ':');
    assert addr[i] in addr;
  }

  /*** The accepted forms ***/

  // A host and port, with or without brackets, are kept, and so is the name.
  lemma NameHostAndPort(name: string, user: string, addr: string, host: string, port: string)
    requires GoodName(name) && GoodTarget(user, addr) && Spells(addr, host, port)
    ensures ParseOne(name + "=" + user + "@" + addr) == Ok(Lighthouse(name, user, JoinHostPort(host, port)))
  {
    NamedValue(name, user, addr);
    AddressWithPort(addr, host, port);
  }

  // A host without a port gets port 4222.
  lemma NameAndHost(name: string, user: string, host: string)
    requires GoodName(name) && GoodTarget(user, host) && ':' !in host
    ensures ParseOne(name + "=" + user + "@" + host) == Ok(Lighthouse(name, user, host + ":4222"))
  {
    NamedValue(name, user, host);
    AddressWithoutPort(host);
  }

  // Without a name the host is the name.
  lemma HostIsName(user: string, addr: string, host: string, port: string)
    requires GoodTarget(user, addr) && '=' !in user && '=' !in addr && Spells(addr, host, port)
    ensures ParseOne(user + "@" + addr) == Ok(Lighthouse(host, user, JoinHostPort(host, port)))
  {
    UnnamedValue(user, addr);
    AddressWithPort(addr, host, port);
  }

  lemma HostAloneIsName(user: string, host: string)
    requires GoodTarget(user, host) && '=' !in user && '=' !in host && ':' !in host
    ensures ParseOne(user + "@" + host) == Ok(Lighthouse(host, user, host + ":4222"))
  {
    UnnamedValue(user, host);
    AddressWithoutPort(host);
  }

  /*** The refused ones ***/

  // A bare IPv6 address could end in a port or not.
  lemma BareIPv6IsRefused(name: string, user: string, addr: string, i: nat, j: nat)
    requires GoodName(name) && GoodTarget(user, addr)
    requires BracketFree(addr) && i < j < |addr| && addr[i] == ':' && addr[j] == ':'
    ensures ParseOne(name + "=" + user + "@" + addr) == Err(AmbiguousIPv6)
  {
    NamedValue(name, user, addr);
    AddressWithColons(addr, i, j);
  }

  // Without a name a text is malformed iff nothing stands before, or nothing after, its first `@`.
  lemma MalformedIff(value: string)
    requires '=' !in value
    ensures ParseOne(value) == Err(Malformed) <==>
            '@' !in value || value[0] == '@' || (value[|value| - 1] == '@' && '@' !in value[..|value| - 1])
  {
    assert First(value, '=') == |value|;
    var i := First(value, '@');
    if i < |value| {
      assert forall k | 0 <= k < i :: value[k] != '@';
      assert i < |value| - 1 ==> value[..|value| - 1][i] == '@';
    }
  }
}
