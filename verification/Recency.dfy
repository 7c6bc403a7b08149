/** Rows ordered newest first, by creation time and then id, and keeping the newest. */
module Recency {
  import Text

  /** Ids with their creation times. */
  type Rows = map<string, nat>

  predicate Later(rows: Rows, a: string, b: string)
    requires a in rows && b in rows
  {
    rows[a] > rows[b] || (rows[a] == rows[b] && Text.StringLess(b, a))
  }

  predicate IsLatest(rows: Rows, a: string) {
    a in rows && forall b :: b in rows && b != a ==> Later(rows, a, b)
  }

  lemma LaterOrder(rows: Rows, a: string, b: string)
    requires a in rows && b in rows && a != b
    ensures Later(rows, a, b) <==> !Later(rows, b, a)
  {
    Text.StringLessTotal(a, b);
  }

  lemma LaterTransitive(rows: Rows, a: string, b: string, c: string)
    requires a in rows && b in rows && c in rows && Later(rows, a, b) && Later(rows, b, c)
    ensures Later(rows, a, c)
  {
    if rows[a] == rows[b] == rows[c] {
      Text.StringLessTransitive(c, b, a);
    }
  }

  /** The latest row. */
  method Latest(rows: Rows) returns (a: string)
    requires rows != map[]
    ensures IsLatest(rows, a)
  {
    a :| a in rows;
    var rest := rows.Keys - {a};
    while rest != {}
      invariant rest <= rows.Keys && a in rows && a !in rest
      invariant forall b :: b in rows && b !in rest && b != a ==> Later(rows, a, b)
    {
      var c :| c in rest;
      rest := rest - {c};
      LaterOrder(rows, a, c);
      if Later(rows, c, a) {
        forall b | b in rows && b !in rest && b != c ensures Later(rows, c, b) {
          if b != a {
            LaterTransitive(rows, c, a, b);
          }
        }
        a := c;
      }
    }
  }

  lemma {:induction false} SomeLatest(rows: Rows)
    requires rows != map[]
    ensures exists a :: IsLatest(rows, a)
    decreases |rows|
  {
    var a :| a in rows;
    var rest := rows - {a};
    if rest == map[] {
      assert forall c :: c in rows && c != a ==> c in rest;
      assert IsLatest(rows, a);
    } else {
      SomeLatest(rest);
      var b :| IsLatest(rest, b);
      LaterOrder(rows, a, b);
      var top := if Later(rows, a, b) then a else b;
      forall c | c in rows && c != top ensures Later(rows, top, c) {
        if c != a && c != b {
          assert Later(rest, b, c);
          if top == a {
            LaterTransitive(rows, a, b, c);
          }
        }
      }
      assert IsLatest(rows, top);
    }
  }

  lemma OneLatest(rows: Rows, a: string, b: string)
    requires IsLatest(rows, a) && IsLatest(rows, b)
    ensures a == b
  {
    if a != b {
      LaterOrder(rows, a, b);
    }
  }

  /** `ORDER BY created_at DESC, id DESC LIMIT n`. */
  ghost function Newest(rows: Rows, n: nat): set<string>
    decreases n
  {
    if n == 0 || rows == map[] then {}
    else
      SomeLatest(rows);
      var top :| IsLatest(rows, top);
      {top} + Newest(rows - {top}, n - 1)
  }

  lemma LaterSame(rows: Rows, top: string, a: string, b: string)
    requires a in rows && b in rows && a != top && b != top
    ensures Later(rows - {top}, a, b) <==> Later(rows, a, b)
  {
    hide Text.StringLess;
  }

  /** The same, computed. */
  method KeepNewest(rows: Rows, n: nat) returns (kept: set<string>)
    ensures kept == Newest(rows, n)
  {
    kept := {};
    var rest := rows;
    var left := n;
    while left > 0 && rest != map[]
      invariant 0 <= left <= n && kept + Newest(rest, left) == Newest(rows, n)
      decreases left
    {
      var top := Latest(rest);
      assert Newest(rest, left) == {top} + Newest(rest - {top}, left - 1) by {
        forall a | IsLatest(rest, a) ensures a == top {
          OneLatest(rest, a, top);
        }
      }
      kept := kept + {top};
      rest := rest - {top};
      left := left - 1;
    }
    assert Newest(rest, left) == {};
  }

  /** As many as there are, up to `n`, and each kept row is later than each dropped one. */
  lemma {:induction false} NewestMeans(rows: Rows, n: nat)
    ensures Newest(rows, n) <= rows.Keys && |Newest(rows, n)| == (if n < |rows| then n else |rows|)
    ensures forall a, b :: a in Newest(rows, n) && b in rows && b !in Newest(rows, n) ==> Later(rows, a, b)
    decreases n
  {
    hide Later;
    if n > 0 && rows != map[] {
      SomeLatest(rows);
      var top :| IsLatest(rows, top) && Newest(rows, n) == {top} + Newest(rows - {top}, n - 1);
      NewestMeans(rows - {top}, n - 1);
      assert (rows - {top}).Keys == rows.Keys - {top};
      forall a, b | a in Newest(rows, n) && b in rows && b !in Newest(rows, n) ensures Later(rows, a, b) {
        if a != top {
          LaterSame(rows, top, a, b);
        }
      }
    }
  }

  /** By time, and at the same time by id. */
  lemma NewestAreNewer(rows: Rows, n: nat, kept: string, dropped: string)
    requires kept in Newest(rows, n) && dropped in rows && dropped !in Newest(rows, n)
    ensures kept in rows && (rows[kept] > rows[dropped] || (rows[kept] == rows[dropped] && Text.StringLess(dropped, kept)))
  {
    hide Newest, Text.StringLess;
    NewestMeans(rows, n);
  }

  /** A row is kept exactly when fewer than `n` rows are later. */
  lemma NewestIff(rows: Rows, n: nat, a: string)
    requires a in rows
    ensures a in Newest(rows, n) <==> |set b | b in rows && Later(rows, b, a)| < n
  {
    hide Later, Newest;
    NewestMeans(rows, n);
    var kept := Newest(rows, n);
    var later := set b | b in rows && Later(rows, b, a);
    if a in kept {
      forall b | b in later ensures b in kept - {a} {
        NotLaterThanItself(rows, a);
        if b !in kept {
          LaterOrder(rows, a, b);
        }
      }
      Fewer(later, kept - {a});
    } else {
      assert kept <= later;
      Fewer(kept, later);
      Fewer(kept, rows.Keys - {a});
    }
  }

  lemma NotLaterThanItself(rows: Rows, a: string)
    requires a in rows
    ensures !Later(rows, a, a)
  {
    Text.StringLessTotal(a, a);
  }

  lemma {:induction false} Fewer(a: set<string>, b: set<string>)
    requires a <= b
    ensures |a| <= |b|
  {
    if a != {} {
      var x :| x in a;
      Fewer(a - {x}, b - {x});
    }
  }
}
