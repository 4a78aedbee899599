/** Ordering of strings character by character, as a binary collation in
    MySQL's ORDER BY and the default Array.prototype.sort compare them, and
    insertion into an ordered list. */
module LexOrder {

  /** a sorts strictly before b: a proper prefix of b, or smaller at the first
      position where they differ. */
  predicate Less(a: string, b: string)
    decreases |a|
  {
    if a == [] then b != []
    else if b == [] then false
    else a[0] < b[0] || (a[0] == b[0] && Less(a[1..], b[1..]))
  }

  predicate LessEq(a: string, b: string) {
    a == b || Less(a, b)
  }

  lemma {:induction false} LessIrreflexive(a: string)
    ensures !Less(a, a)
    decreases |a|
  {
    if a != [] {
      LessIrreflexive(a[1..]);
    }
  }

  lemma {:induction false} LessTransitive(a: string, b: string, c: string)
    requires Less(a, b) && Less(b, c)
    ensures Less(a, c)
    decreases |a|
  {
    if a != [] && a[0] == b[0] && b[0] == c[0] {
      LessTransitive(a[1..], b[1..], c[1..]);
    }
  }

  lemma {:induction false} LessTotal(a: string, b: string)
    ensures a == b || Less(a, b) || Less(b, a)
    decreases |a|
  {
    if a != [] && b != [] && a[0] == b[0] {
      LessTotal(a[1..], b[1..]);
      if a[1..] == b[1..] {
        assert a == [a[0]] + a[1..] && b == [b[0]] + b[1..];
      }
    }
  }

  lemma LessAsymmetric(a: string, b: string)
    requires Less(a, b)
    ensures !Less(b, a)
  {
    if Less(b, a) {
      LessTransitive(a, b, a);
      LessIrreflexive(a);
    }
  }

  /** Every element is at most every later one. */
  predicate Ascending(s: seq<string>) {
    forall i, j :: 0 <= i < j < |s| ==> LessEq(s[i], s[j])
  }

  /** Every element is strictly before every later one: ascending and distinct. */
  predicate StrictlyAscending(s: seq<string>) {
    forall i, j :: 0 <= i < j < |s| ==> Less(s[i], s[j])
  }

  lemma AscendingDistinctIsStrict(s: seq<string>)
    requires Ascending(s)
    requires forall i, j :: 0 <= i < j < |s| ==> s[i] != s[j]
    ensures StrictlyAscending(s)
  {
  }

  /** The ascending list s with x placed after every element before it. */
  function Insert(x: string, s: seq<string>): (r: seq<string>)
    requires Ascending(s)
    ensures Ascending(r)
    ensures multiset(r) == multiset(s) + multiset{x}
    ensures |r| == |s| + 1
    decreases |s|
  {
    if s == [] then [x]
    else if LessEq(x, s[0]) then
      assert forall j :: 0 <= j < |s| ==> LessEq(x, s[j]) by {
        forall j | 0 <= j < |s| ensures LessEq(x, s[j]) {
          if x != s[0] && s[0] != s[j] { LessTransitive(x, s[0], s[j]); }
        }
      }
      [x] + s
    else
      var t := Insert(x, s[1..]);
      LessTotal(x, s[0]);
      assert forall j :: 0 <= j < |t| ==> LessEq(s[0], t[j]) by {
        assert multiset(t) == multiset(s[1..]) + multiset{x};
        forall j | 0 <= j < |t| ensures LessEq(s[0], t[j]) {
          assert t[j] in multiset(t);
          if t[j] != x {
            assert t[j] in s[1..];
          }
        }
      }
      ConsAscending(s[0], t);
      assert s == [s[0]] + s[1..];
      [s[0]] + t
  }

  lemma ConsAscending(h: string, t: seq<string>)
    requires Ascending(t)
    requires forall j :: 0 <= j < |t| ==> LessEq(h, t[j])
    ensures Ascending([h] + t)
  {
    var r := [h] + t;
    forall i, j | 0 <= i < j < |r| ensures LessEq(r[i], r[j]) {
      if i == 0 { assert r[j] == t[j - 1]; } else { assert r[i] == t[i - 1] && r[j] == t[j - 1]; }
    }
  }

  /** Array.prototype.sort() on strings: an ascending permutation. */
  function Sort(s: seq<string>): (r: seq<string>)
    ensures Ascending(r)
    ensures multiset(r) == multiset(s)
    decreases |s|
  {
    if s == [] then []
    else
      assert s == s[..|s| - 1] + [s[|s| - 1]];
      Insert(s[|s| - 1], Sort(s[..|s| - 1]))
  }

  predicate Distinct(s: seq<string>) {
    forall i, j :: 0 <= i < j < |s| ==> s[i] != s[j]
  }

  lemma ConsStrict(h: string, t: seq<string>)
    requires StrictlyAscending(t)
    requires forall j :: 0 <= j < |t| ==> Less(h, t[j])
    ensures StrictlyAscending([h] + t)
  {
    var r := [h] + t;
    forall i, j | 0 <= i < j < |r| ensures Less(r[i], r[j]) {
      if i == 0 { assert r[j] == t[j - 1]; } else { assert r[i] == t[i - 1] && r[j] == t[j - 1]; }
    }
  }

  lemma InsertMembers(x: string, s: seq<string>)
    requires Ascending(s)
    ensures forall y :: y in Insert(x, s) <==> y == x || y in s
  {
    var t := Insert(x, s);
    forall y ensures y in t <==> y == x || y in s {
      assert y in t <==> y in multiset(t);
      assert y in s <==> y in multiset(s);
    }
  }

  /** Placing a new string into a strictly ascending list keeps it strictly
      ascending. */
  lemma {:induction false} InsertKeepsStrict(x: string, s: seq<string>)
    requires StrictlyAscending(s) && x !in s
    ensures StrictlyAscending(Insert(x, s))
    decreases |s|
  {
    if s == [] {
      assert Insert(x, s) == [x];
    } else if LessEq(x, s[0]) {
      assert Insert(x, s) == [x] + s;
      forall j | 0 <= j < |s| ensures Less(x, s[j]) {
        if j > 0 { LessTransitive(x, s[0], s[j]); }
      }
      ConsStrict(x, s);
    } else {
      var t := Insert(x, s[1..]);
      assert Insert(x, s) == [s[0]] + t;
      InsertKeepsStrict(x, s[1..]);
      InsertMembers(x, s[1..]);
      LessTotal(x, s[0]);
      forall j | 0 <= j < |t| ensures Less(s[0], t[j]) {
        assert t[j] in t;
        if t[j] != x {
          var k :| 0 <= k < |s[1..]| && s[1..][k] == t[j];
          assert s[k + 1] == t[j];
        }
      }
      ConsStrict(s[0], t);
    }
  }

  /** Sorting strings that are pairwise different gives a strictly ascending list. */
  lemma {:induction false} SortDistinctIsStrict(s: seq<string>)
    requires Distinct(s)
    ensures StrictlyAscending(Sort(s))
    decreases |s|
  {
    if s != [] {
      var init, last := s[..|s| - 1], s[|s| - 1];
      SortDistinctIsStrict(init);
      assert last !in multiset(Sort(init)) by {
        assert multiset(Sort(init)) == multiset(init);
        assert last !in init;
      }
      InsertKeepsStrict(last, Sort(init));
    }
  }

  lemma HeadIsMember(b: seq<string>)
    requires b != []
    ensures b[0] in b
  {
  }

  /** A strictly ascending list is fixed by its elements. */
  lemma {:induction false} StrictlyAscendingUnique(a: seq<string>, b: seq<string>)
    requires StrictlyAscending(a) && StrictlyAscending(b)
    requires forall x :: x in a <==> x in b
    ensures a == b
    decreases |a|
  {
    if a == [] {
      if b != [] {
        HeadIsMember(b);
        assert false;
      }
    } else {
      assert a[0] in b;
      assert b != [];
      assert b[0] in a;
      if a[0] != b[0] {
        var i :| 0 <= i < |a| && a[i] == b[0];
        var j :| 0 <= j < |b| && b[j] == a[0];
        LessAsymmetric(a[0], a[i]);
      }
      forall x ensures x in a[1..] <==> x in b[1..] {
        if x in a[1..] {
          var i :| 1 <= i < |a| && a[i] == x;
          LessIrreflexive(x);
          assert x in b;
        }
        if x in b[1..] {
          var j :| 1 <= j < |b| && b[j] == x;
          LessIrreflexive(x);
          assert x in a;
        }
      }
      StrictlyAscendingUnique(a[1..], b[1..]);
      assert a == [a[0]] + a[1..] && b == [b[0]] + b[1..];
    }
  }
}
