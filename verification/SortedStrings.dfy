/** The order in which Python sorts strings, and the sorted listing of a set of strings. */
module SortedStrings {
  predicate Less(a: string, b: string) {
    b != "" && (a == "" || a[0] < b[0] || (a[0] == b[0] && Less(a[1..], b[1..])))
  }

  lemma LessTransitive(a: string, b: string, c: string)
    requires Less(a, b) && Less(b, c)
    ensures Less(a, c)
  {
  }

  lemma LessTotal(a: string, b: string)
    ensures a == b || Less(a, b) || Less(b, a)
    ensures !(Less(a, b) && Less(b, a)) && !Less(a, a)
  {
    if a != "" && b != "" && a[0] == b[0] {
      LessTotal(a[1..], b[1..]);
      assert a == [a[0]] + a[1..] && b == [b[0]] + b[1..];
    }
  }

  /** A string comes after its beginnings, and otherwise the first difference decides. */
  lemma {:induction false} FirstDifference(p: string, a: char, b: char, s: string, u: string)
    ensures Less(p, p + [a] + s) && !Less(p + [a] + s, p)
    ensures a < b ==> Less(p + [a] + s, p + [b] + u)
    decreases |p|
  {
    var x, y := p + [a] + s, p + [b] + u;
    if p != "" {
      assert x[1..] == p[1..] + [a] + s && y[1..] == p[1..] + [b] + u;
      FirstDifference(p[1..], a, b, s, u);
    }
  }

  ghost predicate IsSortedListing(s: seq<string>, keys: set<string>) {
    && (forall i, j :: 0 <= i < j < |s| ==> Less(s[i], s[j]))
    && (forall k :: k in s <==> k in keys)
  }

  predicate IsLeast(m: string, keys: set<string>) {
    m in keys && forall k :: k in keys && k != m ==> Less(m, k)
  }

  lemma {:induction false} LeastExists(keys: set<string>) returns (m: string)
    requires keys != {}
    ensures IsLeast(m, keys)
    ensures forall n :: IsLeast(n, keys) ==> n == m
  {
    m :| m in keys;
    if keys != {m} {
      var n := LeastExists(keys - {m});
      LessTotal(m, n);
      forall k | k in keys && Less(m, n) && k != m && k != n ensures Less(m, k) {
        LessTransitive(m, n, k);
      }
      m := if Less(m, n) then m else n;
    }
    forall n | IsLeast(n, keys) ensures n == m {
      LessTotal(m, n);
    }
  }

  lemma OneLeast(keys: set<string>)
    requires keys != {}
    ensures exists m :: IsLeast(m, keys)
    ensures forall m, n :: IsLeast(m, keys) && IsLeast(n, keys) ==> m == n
  {
    var m := LeastExists(keys);
  }

  /** The keys in ascending order, as Python's `sorted` lists them. */
  function SortedKeys(keys: set<string>): (s: seq<string>)
    ensures IsSortedListing(s, keys)
  {
    if keys == {} then []
    else
      OneLeast(keys);
      var m :| IsLeast(m, keys);
      [m] + SortedKeys(keys - {m})
  }

  /** A set of strings has only one sorted listing. */
  lemma {:induction false} ListingUnique(s: seq<string>, t: seq<string>, keys: set<string>)
    requires IsSortedListing(s, keys) && IsSortedListing(t, keys)
    ensures s == t
    decreases |s|
  {
    NonEmptyListing(s, keys);
    NonEmptyListing(t, keys);
    if s != [] {
      HeadLeast(s, t, keys);
      HeadLeast(t, s, keys);
      LessTotal(s[0], t[0]);
      TailListing(s, keys);
      TailListing(t, keys);
      ListingUnique(s[1..], t[1..], keys - {s[0]});
      assert s == [s[0]] + s[1..] && t == [t[0]] + t[1..];
    }
  }

  lemma NonEmptyListing(s: seq<string>, keys: set<string>)
    requires IsSortedListing(s, keys)
    ensures s == [] <==> keys == {}
  {
    if s != [] {
      assert s[0] in keys;
    }
  }

  lemma HeadLeast(s: seq<string>, t: seq<string>, keys: set<string>)
    requires IsSortedListing(s, keys) && IsSortedListing(t, keys) && s != [] && t != []
    ensures s[0] == t[0] || Less(s[0], t[0])
  {
    assert t[0] in keys;
    var i :| 0 <= i < |s| && s[i] == t[0];
  }

  lemma TailListing(s: seq<string>, keys: set<string>)
    requires IsSortedListing(s, keys) && s != []
    ensures IsSortedListing(s[1..], keys - {s[0]})
  {
    assert s == [s[0]] + s[1..];
    LessTotal(s[0], s[0]);
    forall k ensures k in s[1..] <==> k in keys - {s[0]} {
      if k in s[1..] {
        var i :| 0 <= i < |s[1..]| && s[1..][i] == k;
        assert s[i + 1] == k;
      }
    }
  }
}
