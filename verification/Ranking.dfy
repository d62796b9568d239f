/** `row_number() OVER (PARTITION BY key ORDER BY ...) = 1`, with ties left open, and text order. */
module Ranking {

  predicate HasKey<R(==), K(==)>(picked: set<R>, key: R -> K, k: K) {
    exists p <- picked :: key(p) == k
  }

  // One row per key, none of its key before it.
  predicate IsRankOne<R(==), K(==)>(picked: set<R>, rows: set<R>, key: R -> K, before: (R, R) -> bool) {
    && picked <= rows
    && (forall r <- rows :: HasKey(picked, key, key(r)))
    && (forall p <- picked, q <- picked :: key(p) == key(q) ==> p == q)
    && (forall p <- picked, r <- rows :: key(p) == key(r) ==> !before(r, p))
  }

  ghost predicate StrictOrder<R(!new)>(before: (R, R) -> bool) {
    && (forall a :: !before(a, a))
    && (forall a, b, c :: before(a, b) && before(b, c) ==> before(a, c))
  }

  ghost predicate TotalWithinKeys<R(!new), K(!new)>(rows: set<R>, key: R -> K, before: (R, R) -> bool) {
    forall a <- rows, b <- rows :: key(a) == key(b) ==> a == b || before(a, b) || before(b, a)
  }

  // With a total order there is only one answer.
  lemma RankOneIsUnique<R(!new), K(!new)>(p: set<R>, q: set<R>, rows: set<R>, key: R -> K, before: (R, R) -> bool)
    requires IsRankOne(p, rows, key, before) && IsRankOne(q, rows, key, before)
    requires TotalWithinKeys(rows, key, before)
    ensures p == q
  {
    RankOneInside(p, q, rows, key, before);
    RankOneInside(q, p, rows, key, before);
  }

  lemma RankOneInside<R(!new), K(!new)>(p: set<R>, q: set<R>, rows: set<R>, key: R -> K, before: (R, R) -> bool)
    requires IsRankOne(p, rows, key, before) && IsRankOne(q, rows, key, before)
    requires TotalWithinKeys(rows, key, before)
    ensures p <= q
  {
    forall a <- p
      ensures a in q
    {
      assert a in rows;
      var b :| b in q && key(b) == key(a);
      assert a == b || before(a, b) || before(b, a);
    }
  }

  // Some answer always exists.
  lemma {:induction false} RankOneExists<R(!new), K(!new)>(rows: set<R>, key: R -> K, before: (R, R) -> bool)
    requires StrictOrder(before)
    ensures exists picked :: picked <= rows && IsRankOne(picked, rows, key, before)
    decreases |rows|
  {
    if rows == {} {
      assert IsRankOne({}, rows, key, before);
    } else {
      var x :| x in rows;
      var rest := rows - {x};
      RankOneExists(rest, key, before);
      var picked :| picked <= rest && IsRankOne(picked, rest, key, before);
      var next := RankOneExtends(picked, rest, x, key, before);
      assert rest + {x} == rows;
    }
  }

  // A row takes the place of its key's if it comes before it.
  lemma RankOneExtends<R(!new), K(!new)>(picked: set<R>, rest: set<R>, x: R, key: R -> K, before: (R, R) -> bool)
    returns (next: set<R>)
    requires IsRankOne(picked, rest, key, before) && x !in rest && StrictOrder(before)
    ensures IsRankOne(next, rest + {x}, key, before)
  {
    if p :| p in picked && key(p) == key(x) {
      next := if before(x, p) then picked - {p} + {x} else picked;
      var kept := if before(x, p) then x else p;
      assert kept in next && key(kept) == key(x);
      forall r <- rest + {x}
        ensures HasKey(next, key, key(r))
      {
        var a :| a in picked && key(a) == (if r == x then key(p) else key(r));
        assert a == p || a in next;
      }
      forall a <- next, r <- rest + {x} | key(a) == key(r)
        ensures !before(r, a)
      {
        assert a == kept || a in picked;
        assert !before(x, x) && (before(r, x) && before(x, p) ==> before(r, p));
      }
    } else {
      next := picked + {x};
    }
  }

  /*** Text order: by code point, then by length ***/

  predicate TextLess(a: string, b: string) {
    if b == "" then false
    else if a == "" then true
    else a[0] < b[0] || (a[0] == b[0] && TextLess(a[1..], b[1..]))
  }

  // After a common start the one that ends, or has the smaller character, comes first.
  lemma {:induction false} TextLessIff(a: string, b: string)
    ensures TextLess(a, b) <==>
            exists i: nat :: i <= |a| && i < |b| && a[..i] == b[..i] && (i == |a| || a[i] < b[i])
  {
    if b == "" {
    } else if a == "" {
      assert a[..0] == b[..0];
    } else if a[0] != b[0] {
      assert a[..0] == b[..0];
      assert forall i: nat | 0 < i <= |a| && i < |b| :: a[..i][0] == a[0] && b[..i][0] == b[0];
    } else {
      TextLessIff(a[1..], b[1..]);
      forall i: nat | i < |a| && i < |b|
        ensures a[1..][..i] == a[..i + 1][1..]
      {
      }
      var x, y := a[1..], b[1..];
      if i: nat :| i <= |x| && i < |y| && x[..i] == y[..i] && (i == |x| || x[i] < y[i]) {
        assert a[..i + 1] == [a[0]] + a[1..][..i] && b[..i + 1] == [b[0]] + b[1..][..i];
      }
      if i: nat :| i <= |a| && i < |b| && a[..i] == b[..i] && (i == |a| || a[i] < b[i]) {
        assert i > 0;
        assert a[1..][..i - 1] == a[..i][1..] && b[1..][..i - 1] == b[..i][1..];
      }
    }
  }

  lemma {:induction false} TextLessIrreflexive(a: string)
    ensures !TextLess(a, a)
  {
    if a == "" {
    } else {
      TextLessIrreflexive(a[1..]);
    }
  }

  lemma {:induction false} TextLessTransitive(a: string, b: string, c: string)
    requires TextLess(a, b) && TextLess(b, c)
    ensures TextLess(a, c)
  {
    if a != "" && a[0] == b[0] && b[0] == c[0] {
      TextLessTransitive(a[1..], b[1..], c[1..]);
    }
  }

  lemma {:induction false} TextLessTotal(a: string, b: string)
    ensures a == b || TextLess(a, b) || TextLess(b, a)
  {
    if a != "" && b != "" && a[0] == b[0] {
      TextLessTotal(a[1..], b[1..]);
      assert a == [a[0]] + a[1..] && b == [b[0]] + b[1..];
    }
  }
}
