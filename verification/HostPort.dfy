/** Go's `net.SplitHostPort` and `net.JoinHostPort`, whose bracketed form is that of section 3.2.2 of RFC 3986. */
module HostPort {
  import opened Basics

  datatype AddrError = MissingPort | TooManyColons | MissingBracket | UnexpectedBracket

  // Index of the first, or last, occurrence; |s| and -1 when there is none.
  function First(s: string, c: char): (i: nat)
    ensures i <= |s| && (i < |s| ==> s[i] == c)
    ensures forall k | 0 <= k < i :: s[k] != c
  {
    if s == "" || s[0] == c then 0 else 1 + First(s[1..], c)
  }

  function Last(s: string, c: char): (i: int)
    ensures -1 <= i < |s| && (i >= 0 ==> s[i] == c)
    ensures forall k | i < k < |s| :: s[k] != c
  {
    if s == "" then -1
    else if s[|s| - 1] == c then |s| - 1
    else Last(s[..|s| - 1], c)
  }

  function CheckBrackets(s: string, j: nat, k: nat, host: string, port: string): Result<(string, string), AddrError>
    requires j <= |s| && k <= |s|
  {
    if '[' in s[j..] || ']' in s[k..] then Err(UnexpectedBracket) else Ok((host, port))
  }

  function SplitHostPort(s: string): Result<(string, string), AddrError> {
    var i := Last(s, ':');
    if i < 0 then Err(MissingPort)
    else if s[0] == '[' then
      var end := First(s, ']');
      if end == |s| then Err(MissingBracket)
      else if end + 1 == |s| then Err(MissingPort)
      else if end + 1 != i then Err(if s[end + 1] == ':' then TooManyColons else MissingPort)
      else CheckBrackets(s, 1, end + 1, s[1..end], s[i + 1..])
    else if ':' in s[..i] then Err(TooManyColons)
    else CheckBrackets(s, 0, 0, s[..i], s[i + 1..])
  }

  function JoinHostPort(host: string, port: string): string {
    if ':' in host then "[" + host + "]:" + port else host + ":" + port
  }

  /*** What splitting means ***/

  predicate BracketFree(s: string) {
    '[' !in s && ']' !in s
  }

  predicate PortText(p: string) {
    BracketFree(p) && ':' !in p
  }

  // The two spellings of a host and port.
  predicate Spells(s: string, host: string, port: string) {
    && BracketFree(host) && PortText(port)
    && ((':' !in host && s == host + ":" + port) || s == "[" + host + "]:" + port)
  }

  lemma LastIs(s: string, c: char, i: nat)
    requires i < |s| && s[i] == c && c !in s[i + 1..]
    ensures Last(s, c) == i
  {
    assert forall k | i < k < |s| :: s[k] == s[i + 1..][k - i - 1];
  }

  lemma FirstIs(s: string, c: char, i: nat)
    requires i < |s| && s[i] == c && c !in s[..i]
    ensures First(s, c) == i
  {
    assert forall k | 0 <= k < i :: s[k] == s[..i][k];
  }

  lemma LastColon(a: string, p: string)
    requires ':' !in p
    ensures Last(a + ":" + p, ':') == |a|
  {
    assert (a + ":" + p)[|a| + 1..] == p;
    LastIs(a + ":" + p, ':', |a|);
  }

  // Equal texts with the colon before equal-looking ports split the same way.
  lemma SameColon(a: string, p: string, b: string, q: string)
    requires ':' !in p && ':' !in q
    requires a + ":" + p == b + ":" + q
    ensures a == b && p == q
  {
    LastColon(a, p);
    LastColon(b, q);
    assert (a + ":" + p)[..|a|] == a && (b + ":" + q)[..|b|] == b;
    assert (a + ":" + p)[|a| + 1..] == p && (b + ":" + q)[|b| + 1..] == q;
  }

  lemma FirstBracket(host: string, rest: string)
    requires BracketFree(host)
    ensures First("[" + host + "]" + rest, ']') == |host| + 1
  {
    var s := "[" + host + "]" + rest;
    assert s[..|host| + 1] == "[" + host;
    FirstIs(s, ']', |host| + 1);
  }

  lemma SpelledPlainSplits(host: string, port: string)
    requires BracketFree(host) && PortText(port) && ':' !in host
    ensures SplitHostPort(host + ":" + port) == Ok((host, port))
  {
    var s := host + ":" + port;
    LastColon(host, port);
    assert s[..|host|] == host && s[|host| + 1..] == port;
    assert '[' !in s[0..] && ']' !in s[0..];
    assert s[0] != '[' by {
      assert host != "" ==> s[0] == host[0];
    }
  }

  lemma BracketSlices(s: string, host: string, port: string)
    requires s == "[" + host + "]:" + port
    ensures |s| == |host| + |port| + 3 && s[0] == '['
    ensures s[1..|host| + 1] == host && s[|host| + 3..] == port
    ensures s[1..] == host + ("]:" + port) && s[|host| + 2..] == ":" + port
    ensures s == ("[" + host + "]") + ":" + port && s == "[" + host + "]" + (":" + port)
  {
  }

  lemma SpelledBracketsSplit(host: string, port: string)
    requires BracketFree(host) && PortText(port)
    ensures SplitHostPort("[" + host + "]:" + port) == Ok((host, port))
  {
    var s := "[" + host + "]:" + port;
    BracketSlices(s, host, port);
    LastColon("[" + host + "]", port);
    FirstBracket(host, ":" + port);
    BracketsChecked(s[1..], s[|host| + 2..], host, port);
  }

  lemma BracketsChecked(left: string, right: string, host: string, port: string)
    requires BracketFree(host) && BracketFree(port)
    requires left == host + ("]:" + port) && right == ":" + port
    ensures '[' !in left && ']' !in right
  {
  }

  lemma SplitIsSpelled(s: string, host: string, port: string)
    requires SplitHostPort(s) == Ok((host, port))
    ensures Spells(s, host, port)
  {
    var i := Last(s, ':');
    assert port == s[i + 1..];
    if s[0] == '[' {
      var end := First(s, ']');
      assert host == s[1..end] && s == "[" + host + "]:" + port;
      assert forall c <- host :: c in s[..end] && c in s[1..];
      assert forall c <- port :: c in s[1..] && c in s[end + 1..];
    } else {
      assert s == host + ":" + port && s[0..] == s;
    }
  }

  // Splitting succeeds on exactly the two spellings, and yields exactly what was spelled.
  lemma SplitIffSpelled(s: string, host: string, port: string)
    ensures SplitHostPort(s) == Ok((host, port)) <==> Spells(s, host, port)
  {
    if SplitHostPort(s) == Ok((host, port)) {
      SplitIsSpelled(s, host, port);
    }
    if Spells(s, host, port) {
      if s == "[" + host + "]:" + port {
        SpelledBracketsSplit(host, port);
      } else {
        SpelledPlainSplits(host, port);
      }
    }
  }

  predicate TwoColons(s: string) {
    exists i, j :: 0 <= i < j < |s| && s[i] == ':' && s[j] == ':'
  }

  // Without a bracket in front everything depends on the number of colons, and then on the brackets.
  lemma SplitByColons(s: string)
    requires s == "" || s[0] != '['
    ensures SplitHostPort(s) == Err(MissingPort) <==> ':' !in s
    ensures SplitHostPort(s) == Err(TooManyColons) <==> TwoColons(s)
    ensures SplitHostPort(s) == Err(UnexpectedBracket) <==> ':' in s && !TwoColons(s) && !BracketFree(s)
    ensures SplitHostPort(s).Ok? <==> ':' in s && !TwoColons(s) && BracketFree(s)
  {
    var last := Last(s, ':');
    if last >= 0 {
      assert s[0..] == s;
      if ':' in s[..last] {
        var i :| 0 <= i < last && s[..last][i] == ':';
        assert s[i] == ':' && s[last] == ':';
      } else {
        assert forall i | 0 <= i < last :: s[i] == s[..last][i];
      }
    }
  }

  lemma UnclosedBracket(s: string)
    requires ':' in s && s[0] == '[' && ']' !in s
    ensures SplitHostPort(s) == Err(MissingBracket)
  {
  }

  // After a bracketed host comes a colon, and then no colon or bracket.
  lemma SplitBracketed(s: string, inner: string, rest: string)
    requires s == "[" + inner + "]" + rest && ']' !in inner && ':' in s
    ensures SplitHostPort(s) ==
            if rest == "" || rest[0] != ':' then Err(MissingPort)
            else if ':' in rest[1..] then Err(TooManyColons)
            else if '[' in inner + rest || ']' in rest then Err(UnexpectedBracket)
            else Ok((inner, rest[1..]))
  {
    BracketEnd(s, inner, rest);
    if rest != "" && rest[0] == ':' {
      ColonAfterBracket(s, inner, rest);
    }
  }

  lemma ColonAfterBracket(s: string, inner: string, rest: string)
    requires s == "[" + inner + "]" + rest && rest != "" && rest[0] == ':'
    ensures ':' in rest[1..] ==> Last(s, ':') > |inner| + 2
    ensures ':' !in rest[1..] ==> Last(s, ':') == |inner| + 2
    ensures s[|inner| + 3..] == rest[1..]
  {
    if ':' in rest[1..] {
      var k :| 0 <= k < |rest| - 1 && rest[1..][k] == ':';
      assert s[|inner| + 3 + k] == ':';
    } else {
      assert s[|inner| + 3..] == rest[1..];
      LastIs(s, ':', |inner| + 2);
    }
  }

  lemma BracketEnd(s: string, inner: string, rest: string)
    requires s == "[" + inner + "]" + rest && ']' !in inner && ':' in s
    ensures First(s, ']') == |inner| + 1 && Last(s, ':') >= 0
    ensures s[1..|inner| + 1] == inner && s[|inner| + 2..] == rest && s[1..] == inner + ("]" + rest)
  {
    assert s[..|inner| + 1] == "[" + inner;
    FirstIs(s, ']', |inner| + 1);
  }

  // Splitting undoes joining exactly for bracket-free hosts and colon- and bracket-free ports.
  lemma SplitOfJoin(host: string, port: string)
    ensures SplitHostPort(JoinHostPort(host, port)) == Ok((host, port)) <==> BracketFree(host) && PortText(port)
  {
    SplitIffSpelled(JoinHostPort(host, port), host, port);
  }

  // For one port, different hosts always join to different targets.
  lemma JoinIsInjective(a: string, b: string, port: string)
    requires JoinHostPort(a, port) == JoinHostPort(b, port)
    ensures a == b
  {
    var tail := ":" + port;
    var x := if ':' in a then "[" + a + "]" else a;
    var y := if ':' in b then "[" + b + "]" else b;
    assert JoinHostPort(a, port) == x + tail && JoinHostPort(b, port) == y + tail;
    assert |x| == |y|;
    assert x == (x + tail)[..|x|] && y == (y + tail)[..|y|];
    if ':' in a {
      assert a == x[1..|x| - 1];
      assert forall c <- a :: c in x;
    }
    if ':' in b {
      assert b == y[1..|y| - 1];
      assert forall c <- b :: c in y;
    }
  }

  // With colon-free ports the port is recovered too.
  lemma JoinIsInjectiveInBoth(a: string, p: string, b: string, q: string)
    requires ':' !in p && ':' !in q && JoinHostPort(a, p) == JoinHostPort(b, q)
    ensures a == b && p == q
  {
    var x := if ':' in a then "[" + a + "]" else a;
    var y := if ':' in b then "[" + b + "]" else b;
    assert JoinHostPort(a, p) == x + ":" + p && JoinHostPort(b, q) == y + ":" + q;
    SameColon(x, p, y, q);
    JoinIsInjective(a, b, p);
  }
}
