/** The order view.py `load_from_file` puts the parsed sites in before listing
    them: `sorted(sites, key=lambda t: t[1])`, a stable sort on the primary
    host name under Python's string order. */
module Order {
  import opened Grammar

  /** Python's `<` on `str`: code point by code point, a proper prefix first. */
  predicate StrLess(a: string, b: string)
    decreases |a|
  {
    if |b| == 0 then false
    else if |a| == 0 then true
    else if a[0] != b[0] then a[0] < b[0]
    else StrLess(a[1..], b[1..])
  }

  lemma {:induction false} StrLessIrreflexive(a: string)
    ensures !StrLess(a, a)
    decreases |a|
  {
    if |a| > 0 {
      StrLessIrreflexive(a[1..]);
    }
  }

  lemma {:induction false} StrLessTransitive(a: string, b: string, c: string)
    requires StrLess(a, b) && StrLess(b, c)
    ensures StrLess(a, c)
    decreases |a|
  {
    if |a| > 0 && a[0] == b[0] && b[0] == c[0] {
      StrLessTransitive(a[1..], b[1..], c[1..]);
    }
  }

  /** Two different strings are ordered one way or the other. */
  lemma {:induction false} StrLessTotal(a: string, b: string)
    requires a != b
    ensures StrLess(a, b) || StrLess(b, a)
    decreases |a|
  {
    if |a| > 0 && |b| > 0 && a[0] == b[0] {
      assert a == [a[0]] + a[1..] && b == [b[0]] + b[1..];
      StrLessTotal(a[1..], b[1..]);
    }
  }

  lemma {:induction false} StrLessAsymmetric(a: string, b: string)
    requires StrLess(a, b)
    ensures !StrLess(b, a)
  {
    if StrLess(b, a) {
      StrLessTransitive(a, b, a);
      StrLessIrreflexive(a);
    }
  }

  /** Not less is a preorder: it chains. */
  lemma NotLessTransitive(a: string, b: string, c: string)
    requires !StrLess(b, a) && !StrLess(c, b)
    ensures !StrLess(c, a)
  {
    if StrLess(c, a) {
      if a == b {
      } else if b == c {
      } else {
        StrLessTotal(a, b);
        StrLessTotal(b, c);
        StrLessTransitive(a, b, c);
        StrLessAsymmetric(c, a);
      }
    }
  }

  /** Ordered by primary host name, equal names in any order. */
  predicate Sorted(xs: seq<SiteRecord>) {
    forall i, j | 0 <= i < j < |xs| :: !StrLess(xs[j].primary, xs[i].primary)
  }

  /** The records with a given primary name, in their order. */
  function WithPrimary(xs: seq<SiteRecord>, k: string): (r: seq<SiteRecord>)
    ensures |r| <= |xs|
  {
    if |xs| == 0 then []
    else (if xs[0].primary == k then [xs[0]] else []) + WithPrimary(xs[1..], k)
  }

  /** One step of a stable insertion sort: `x` goes after the records with a
      smaller name and before the rest, so before any record with its name. */
  function Insert(x: SiteRecord, ys: seq<SiteRecord>): (r: seq<SiteRecord>)
    ensures |r| == |ys| + 1
    ensures multiset(r) == multiset(ys) + multiset{x}
  {
    if |ys| == 0 then [x]
    else if StrLess(ys[0].primary, x.primary) then
      assert ys == [ys[0]] + ys[1..];
      [ys[0]] + Insert(x, ys[1..])
    else [x] + ys
  }

  /** `sorted(xs, key=lambda t: t[1])`. */
  function SortByPrimary(xs: seq<SiteRecord>): (r: seq<SiteRecord>)
    ensures |r| == |xs|
    ensures multiset(r) == multiset(xs)
  {
    if |xs| == 0 then []
    else
      assert xs == [xs[0]] + xs[1..];
      Insert(xs[0], SortByPrimary(xs[1..]))
  }

  lemma {:induction false} InsertSorted(x: SiteRecord, ys: seq<SiteRecord>)
    requires Sorted(ys)
    ensures Sorted(Insert(x, ys))
  {
    if |ys| > 0 {
      if StrLess(ys[0].primary, x.primary) {
        InsertSorted(x, ys[1..]);
        var rest := Insert(x, ys[1..]);
        forall z: SiteRecord | z in multiset(rest) ensures !StrLess(z.primary, ys[0].primary) {
          assert z in multiset(ys[1..]) + multiset{x};
          if z == x {
            StrLessAsymmetric(ys[0].primary, x.primary);
          } else {
            assert z in ys[1..];
            var j :| 0 <= j < |ys[1..]| && ys[1..][j] == z;
            assert ys[j + 1] == z;
          }
        }
        forall j | 0 < j < |rest| + 1 ensures !StrLess(([ys[0]] + rest)[j].primary, ys[0].primary) {
          assert ([ys[0]] + rest)[j] == rest[j - 1];
          assert rest[j - 1] in multiset(rest);
        }
      } else {
        forall j | 0 <= j < |ys| ensures !StrLess(ys[j].primary, x.primary) {
          if j > 0 {
            NotLessTransitive(x.primary, ys[0].primary, ys[j].primary);
          }
        }
      }
    }
  }

  /** The insertion sort orders by primary name. */
  lemma {:induction false} SortSorted(xs: seq<SiteRecord>)
    ensures Sorted(SortByPrimary(xs))
  {
    if |xs| > 0 {
      SortSorted(xs[1..]);
      InsertSorted(xs[0], SortByPrimary(xs[1..]));
    }
  }

  lemma WithPrimaryCons(y: SiteRecord, ys: seq<SiteRecord>, k: string)
    ensures WithPrimary([y] + ys, k) == (if y.primary == k then [y] else []) + WithPrimary(ys, k)
  {
    assert ([y] + ys)[0] == y && ([y] + ys)[1..] == ys;
  }

  /** A record that `x` passes over has a smaller name, so never the name `x` has. */
  lemma PassedOver(x: SiteRecord, y: SiteRecord, k: string)
    requires StrLess(y.primary, x.primary) && x.primary == k
    ensures y.primary != k
  {
    StrLessIrreflexive(k);
  }

  lemma {:induction false} InsertStable(x: SiteRecord, ys: seq<SiteRecord>, k: string)
    ensures WithPrimary(Insert(x, ys), k) == (if x.primary == k then [x] else []) + WithPrimary(ys, k)
  {
    if |ys| == 0 {
      WithPrimaryCons(x, [], k);
    } else if StrLess(ys[0].primary, x.primary) {
      var y := ys[0];
      var rest := Insert(x, ys[1..]);
      assert Insert(x, ys) == [y] + rest;
      InsertStable(x, ys[1..], k);
      WithPrimaryCons(y, rest, k);
      WithPrimaryCons(y, ys[1..], k);
      assert [y] + ys[1..] == ys;
      if x.primary == k {
        PassedOver(x, y, k);
      }
    } else {
      WithPrimaryCons(x, ys, k);
    }
  }

  /** The sort is stable: records with the same primary name keep their order. */
  lemma {:induction false} SortStable(xs: seq<SiteRecord>, k: string)
    ensures WithPrimary(SortByPrimary(xs), k) == WithPrimary(xs, k)
  {
    if |xs| > 0 {
      SortStable(xs[1..], k);
      InsertStable(xs[0], SortByPrimary(xs[1..]), k);
    }
  }
}
