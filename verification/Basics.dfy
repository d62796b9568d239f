/** Optional values and results, in the shape Go's `(value, error)` pairs and SQL's NULL take here. */
module Basics {
  datatype Option<+T> = None | Some(value: T)

  datatype Result<+T, +E> = Ok(value: T) | Err(error: E)

  // storage.go `nullableString`: the empty string is stored as NULL.
  function NullableString(s: string): Option<string> {
    if s == "" then None else Some(s)
  }

  const DIGITS := "0123456789"

  // A number in decimal.
  function Itoa(n: nat): string {
    if n < 10 then [DIGITS[n]] else Itoa(n / 10) + [DIGITS[n % 10]]
  }

  predicate IsNumber(s: string) {
    s != "" && forall c <- s :: '0' <= c <= '9'
  }

  // Reading a number from the left.
  function Decimal(s: string): int {
    if s == "" then 0 else 10 * Decimal(s[..|s| - 1]) + (s[|s| - 1] as int - '0' as int)
  }

  // The text of a number reads as that number, and starts with 0 only for 0.
  lemma {:induction false} ItoaReads(n: nat)
    ensures IsNumber(Itoa(n)) && Decimal(Itoa(n)) == n
    ensures n > 0 ==> Itoa(n)[0] != '0'
  {
    assert forall i | 0 <= i < 10 :: DIGITS[i] as int == '0' as int + i;
    if n < 10 {
      assert Itoa(n)[..0] == "";
    } else {
      ItoaReads(n / 10);
      assert Itoa(n)[..|Itoa(n)| - 1] == Itoa(n / 10);
    }
  }

  // strings.Join with a one-character separator
  function Join(parts: seq<string>, sep: char): string {
    if parts == [] then ""
    else if |parts| == 1 then parts[0]
    else parts[0] + [sep] + Join(parts[1..], sep)
  }

  function Fields(s: string, sep: char): (fields: seq<string>)
    ensures fields != []
  {
    if s == "" then [""]
    else
      var rest := Fields(s[1..], sep);
      if s[0] == sep then [""] + rest else [[s[0]] + rest[0]] + rest[1..]
  }

  // The parts can be read back, as long as there are any and none holds the separator.
  lemma {:induction false} FieldsOfJoin(parts: seq<string>, sep: char)
    requires parts != [] && forall p <- parts :: sep !in p
    ensures Fields(Join(parts, sep), sep) == parts
    decreases |parts|
  {
    if |parts| == 1 {
      FieldsOfOne(parts[0], sep);
    } else {
      FieldsOfJoin(parts[1..], sep);
      FieldsOfFirst(parts[0], sep, Join(parts[1..], sep));
      assert parts == [parts[0]] + parts[1..];
    }
  }

  lemma {:induction false} FieldsOfOne(p: string, sep: char)
    requires sep !in p
    ensures Fields(p, sep) == [p]
  {
    if p == "" {
    } else {
      FieldsOfOne(p[1..], sep);
      assert [p[0]] + p[1..] == p;
    }
  }

  lemma {:induction false} FieldsOfFirst(p: string, sep: char, rest: string)
    requires sep !in p
    ensures Fields(p + [sep] + rest, sep) == [p] + Fields(rest, sep)
  {
    var s := p + [sep] + rest;
    if p == "" {
      assert s[1..] == rest;
    } else {
      FieldsOfFirst(p[1..], sep, rest);
      assert s[1..] == p[1..] + [sep] + rest;
      assert [p[0]] + p[1..] == p;
    }
  }

  function Min(a: int, b: int): int {
    if a <= b then a else b
  }

  lemma AnyOf<T>(s: set<T>) returns (x: T)
    requires s != {}
    ensures x in s
  {
    x :| x in s;
  }

  lemma SubsetOfEqualSize<T>(a: set<T>, b: set<T>)
    requires a <= b
    ensures |a| <= |b|
    ensures |a| == |b| ==> a == b
  {
    assert b == a + (b - a);
    assert |b| == |a| + |b - a|;
  }

  // A set of any size between two nested ones.
  lemma {:induction false} SetBetween<T>(low: set<T>, high: set<T>, n: nat) returns (s: set<T>)
    requires low <= high && |low| <= n <= |high|
    ensures low <= s <= high && |s| == n
    decreases n - |low|
  {
    if n == |low| {
      s := low;
    } else {
      assert high == low + (high - low);
      var x := AnyOf(high - low);
      s := SetBetween(low + {x}, high, n);
    }
  }

  function Image<A(!new), B>(s: set<A>, f: A -> B): set<B> {
    set a <- s :: f(a)
  }

  // An injective image is as large as its source.
  lemma {:induction false} ImageSize<A(!new), B(!new)>(s: set<A>, f: A -> B)
    requires forall a <- s, b <- s :: f(a) == f(b) ==> a == b
    ensures |Image(s, f)| == |s|
    decreases |s|
  {
    if s == {} {
    } else {
      var x := AnyOf(s);
      var rest := s - {x};
      ImageSize(rest, f);
      assert Image(s, f) == Image(rest, f) + {f(x)};
    }
  }

  function Range(lo: int, hi: int): (r: set<int>)
    ensures forall i :: i in r <==> lo <= i < hi
    decreases hi - lo
  {
    if lo < hi then Range(lo, hi - 1) + {hi - 1} else {}
  }

  lemma {:induction false} RangeSize(lo: int, hi: int)
    requires lo <= hi
    ensures |Range(lo, hi)| == hi - lo
    decreases hi - lo
  {
    if lo == hi {
    } else {
      RangeSize(lo, hi - 1);
    }
  }
}
