/** The iteration order of `std::map<std::string, _>`: keys ascend under
    `std::string`'s `operator<`, a lexicographic comparison of characters. */
module KeyOrder {

  /** `a < b` for `std::string`. */
  predicate Less(a: string, b: string) {
    if |a| == 0 then |b| > 0
    else if |b| == 0 then false
    else if a[0] != b[0] then a[0] < b[0]
    else Less(a[1..], b[1..])
  }

  lemma {:induction false} LessIrreflexive(a: string)
    ensures !Less(a, a)
  {
    if |a| > 0 { LessIrreflexive(a[1..]); }
  }

  lemma {:induction false} LessTransitive(a: string, b: string, c: string)
    requires Less(a, b) && Less(b, c)
    ensures Less(a, c)
  {
    if |a| > 0 && |b| > 0 && |c| > 0 && a[0] == b[0] && b[0] == c[0] {
      LessTransitive(a[1..], b[1..], c[1..]);
    }
  }

  lemma {:induction false} LessTotal(a: string, b: string)
    ensures a == b || Less(a, b) || Less(b, a)
  {
    if |a| > 0 && |b| > 0 && a[0] == b[0] {
      LessTotal(a[1..], b[1..]);
      if a[1..] == b[1..] {
        assert a == [a[0]] + a[1..] && b == [b[0]] + b[1..];
      }
    }
  }

  lemma LessAsymmetric(a: string, b: string)
    requires Less(a, b)
    ensures !Less(b, a)
  {
    if Less(b, a) {
      LessTransitive(a, b, a);
      LessIrreflexive(a);
    }
  }

  /** `k` is the first key of `s` in map order. */
  predicate IsLeast(k: string, s: set<string>) {
    k in s && forall k' | k' in s :: k == k' || Less(k, k')
  }

  lemma {:induction false} LeastExists(s: set<string>)
    requires s != {}
    ensures exists k :: IsLeast(k, s)
    decreases |s|
  {
    var x :| x in s;
    if s == {x} {
      assert IsLeast(x, s);
    } else {
      LeastExists(s - {x});
      var m :| IsLeast(m, s - {x});
      LessTotal(x, m);
      if Less(x, m) {
        forall k' | k' in s ensures x == k' || Less(x, k') {
          if k' != x && k' != m { LessTransitive(x, m, k'); }
        }
        assert IsLeast(x, s);
      } else {
        assert IsLeast(m, s);
      }
    }
  }

  lemma LeastUnique(a: string, b: string, s: set<string>)
    requires IsLeast(a, s) && IsLeast(b, s)
    ensures a == b
  {
    if a != b { LessAsymmetric(a, b); }
  }

  predicate StrictlyAscending(ks: seq<string>) {
    forall i, j | 0 <= i < j < |ks| :: Less(ks[i], ks[j])
  }

  /** The keys of `s` in the order a `std::map` visits them. */
  ghost function Ascending(s: set<string>): (ks: seq<string>)
    decreases |s|
  {
    if s == {} then []
    else
      LeastExists(s);
      var k :| IsLeast(k, s);
      [k] + Ascending(s - {k})
  }

  /** Visiting the least key first and then the rest is the map order. */
  lemma AscendingStep(s: set<string>, k: string)
    requires IsLeast(k, s)
    ensures Ascending(s) == [k] + Ascending(s - {k})
  {
    forall k1, k2 | IsLeast(k1, s) && IsLeast(k2, s) ensures k1 == k2 {
      LeastUnique(k1, k2, s);
    }
  }

  /** The map order lists every key exactly once, in ascending order. */
  lemma {:induction false} AscendingIsSorted(s: set<string>)
    ensures StrictlyAscending(Ascending(s))
    ensures forall k :: k in Ascending(s) <==> k in s
    ensures |Ascending(s)| == |s|
    decreases |s|
  {
    if s != {} {
      LeastExists(s);
      var k :| IsLeast(k, s);
      AscendingStep(s, k);
      var rest := Ascending(s - {k});
      AscendingIsSorted(s - {k});
      assert Ascending(s) == [k] + rest;
      forall i, j | 0 <= i < j < |Ascending(s)| ensures Less(Ascending(s)[i], Ascending(s)[j]) {
        if i == 0 {
          assert Ascending(s)[j] == rest[j - 1];
          assert rest[j - 1] in s - {k};
        } else {
          assert Ascending(s)[i] == rest[i - 1] && Ascending(s)[j] == rest[j - 1];
        }
      }
    }
  }

  /** Two ascending key lists with the same keys are the same list. */
  lemma {:induction false} AscendingUnique(a: seq<string>, b: seq<string>)
    requires StrictlyAscending(a) && StrictlyAscending(b)
    requires forall k :: k in a <==> k in b
    ensures a == b
    decreases |a|
  {
    if a != [] { assert a[0] in a; }
    if b != [] { assert b[0] in b; }
    if a != [] && b != [] {
      if a[0] != b[0] {
        // each first element is below everything else in its list
        assert a[0] in b;
        var j :| 0 <= j < |b| && b[j] == a[0];
        assert b[0] in a;
        var i :| 0 <= i < |a| && a[i] == b[0];
        assert j > 0 && i > 0;
        assert Less(b[0], a[0]) && Less(a[0], b[0]);
        LessAsymmetric(a[0], b[0]);
      }
      forall k ensures k in a[1..] <==> k in b[1..] {
        if k in a[1..] {
          var i :| 1 <= i < |a| && a[i] == k;
          assert Less(a[0], k);
          if k == b[0] { LessIrreflexive(k); }
          assert k in b;
        }
        if k in b[1..] {
          var j :| 1 <= j < |b| && b[j] == k;
          assert Less(b[0], k);
          if k == a[0] { LessIrreflexive(k); }
          assert k in a;
        }
      }
      AscendingUnique(a[1..], b[1..]);
      assert a == [a[0]] + a[1..] && b == [b[0]] + b[1..];
    }
  }

  /** Chooses the next key a `std::map` iterator visits. */
  method LeastKey(s: set<string>) returns (k: string)
    requires s != {}
    ensures IsLeast(k, s)
  {
    LeastExists(s);
    k :| IsLeast(k, s);
  }
}
