/**
 * The iteration order of `new TreeMap<>(env).entrySet()`: ascending by
 * `String.compareTo`, which compares the characters at the first position
 * where the strings differ, and otherwise puts the shorter string first.
 */
module KeyOrder {

  /** `a.compareTo(b) < 0`. */
  predicate Less(a: string, b: string)
    decreases |a|
  {
    if a == [] then b != []
    else if b == [] then false
    else if a[0] != b[0] then a[0] < b[0]
    else Less(a[1..], b[1..])
  }

  /**
   * The `compareTo` contract written out: `a` is a proper prefix of `b`, or
   * the first position where they differ holds a smaller character in `a`.
   */
  ghost predicate ComparesLess(a: string, b: string) {
    (|a| < |b| && a == b[..|a|]) ||
    exists k :: 0 <= k < |a| && k < |b| && a[..k] == b[..k] && a[k] < b[k]
  }

  /** `Less` is exactly the order that `compareTo` documents. */
  lemma {:induction false} LessCharacterised(a: string, b: string)
    ensures Less(a, b) <==> ComparesLess(a, b)
    decreases |a|
  {
    if a == [] || b == [] {
    } else if a[0] != b[0] {
      if ComparesLess(a, b) && !(|a| < |b| && a == b[..|a|]) {
        var k :| 0 <= k < |a| && k < |b| && a[..k] == b[..k] && a[k] < b[k];
        SamePrefixSameFirst(a, b, k);
      }
      if a[0] < b[0] {
        assert a[..0] == b[..0];
      }
    } else {
      var a', b' := a[1..], b[1..];
      LessCharacterised(a', b');
      if |a'| < |b'| && a' == b'[..|a'|] {
        assert a == [a[0]] + a' && b[..|a|] == [b[0]] + b'[..|a'|];
      }
      if |a| < |b| && a == b[..|a|] {
        assert a' == a[1..] == b[..|a|][1..] == b'[..|a'|];
      }
      if k :| 0 <= k < |a'| && k < |b'| && a'[..k] == b'[..k] && a'[k] < b'[k] {
        assert a[..k + 1] == [a[0]] + a'[..k] && b[..k + 1] == [b[0]] + b'[..k];
        assert a[k + 1] == a'[k] && b[k + 1] == b'[k];
      }
      if k :| 0 <= k < |a| && k < |b| && a[..k] == b[..k] && a[k] < b[k] {
        assert k > 0;
        assert a'[..k - 1] == a[..k][1..] == b[..k][1..] == b'[..k - 1];
        assert a'[k - 1] == a[k] && b'[k - 1] == b[k];
      }
    }
  }

  /** Strings that share a non-empty prefix share their first character. */
  lemma SamePrefixSameFirst(a: string, b: string, k: nat)
    requires k <= |a| && k <= |b| && a[..k] == b[..k]
    ensures k > 0 ==> a[0] == b[0]
  {
    if k > 0 {
      assert a[0] == a[..k][0];
    }
  }

  lemma {:induction false} LessIrreflexive(a: string)
    ensures !Less(a, a)
    decreases |a|
  {
    if a != [] {
      LessIrreflexive(a[1..]);
    }
  }

  lemma {:induction false} LessAsymmetric(a: string, b: string)
    ensures Less(a, b) ==> !Less(b, a)
    decreases |a|
  {
    if a != [] && b != [] && a[0] == b[0] {
      LessAsymmetric(a[1..], b[1..]);
    }
  }

  lemma {:induction false} LessTransitive(a: string, b: string, c: string)
    requires Less(a, b) && Less(b, c)
    ensures Less(a, c)
    decreases |a|
  {
    if a != [] && a[0] == b[0] && b[0] == c[0] {
      LessTransitive(a[1..], b[1..], c[1..]);
    }
  }

  /** Any two different strings are ordered one way or the other. */
  lemma {:induction false} LessTotal(a: string, b: string)
    ensures a == b || Less(a, b) || Less(b, a)
    decreases |a|
  {
    if a != [] && b != [] && a[0] == b[0] {
      LessTotal(a[1..], b[1..]);
      if a[1..] == b[1..] {
        assert a == [a[0]] + a[1..] && b == [b[0]] + b[1..];
      }
    }
  }

  /** `k` is the first key of `keys` in iteration order. */
  predicate IsLeast(k: string, keys: set<string>) {
    k in keys && forall j :: j in keys && j != k ==> Less(k, j)
  }

  lemma {:induction false} LeastExists(keys: set<string>)
    requires keys != {}
    ensures exists k :: IsLeast(k, keys)
    decreases |keys|
  {
    var x :| x in keys;
    var rest := keys - {x};
    if rest == {} {
      assert keys == {x};
      assert IsLeast(x, keys);
    } else {
      LeastExists(rest);
      var m :| IsLeast(m, rest);
      LessTotal(x, m);
      if Less(x, m) {
        forall j | j in keys && j != x ensures Less(x, j) {
          if j != m {
            LessTransitive(x, m, j);
          }
        }
        assert IsLeast(x, keys);
      } else {
        assert IsLeast(m, keys);
      }
    }
  }

  lemma LeastUnique(k: string, m: string, keys: set<string>)
    requires IsLeast(k, keys) && IsLeast(m, keys)
    ensures k == m
  {
    if k != m {
      LessAsymmetric(k, m);
    }
  }

  predicate StrictlyAscending(r: seq<string>) {
    forall i, j :: 0 <= i < j < |r| ==> Less(r[i], r[j])
  }

  /** The keys of a map in the order a TreeMap hands them out. */
  ghost function SortedKeys(keys: set<string>): (r: seq<string>)
    ensures StrictlyAscending(r)
    ensures forall k :: k in r <==> k in keys
    ensures |r| == |keys|
    decreases |keys|
  {
    if keys == {} then []
    else
      LeastExists(keys);
      var k :| IsLeast(k, keys);
      var rest := SortedKeys(keys - {k});
      LeastThenAscending(k, keys, rest);
      [k] + rest
  }

  /** The least key followed by the others in ascending order is ascending. */
  lemma LeastThenAscending(k: string, keys: set<string>, rest: seq<string>)
    requires IsLeast(k, keys) && StrictlyAscending(rest)
    requires forall x :: x in rest <==> x in keys - {k}
    ensures StrictlyAscending([k] + rest)
  {
    var r := [k] + rest;
    forall i, j | 0 <= i < j < |r| ensures Less(r[i], r[j]) {
      if i == 0 {
        assert r[j] == rest[j - 1] && r[j] in keys - {k};
      } else {
        assert r[i] == rest[i - 1] && r[j] == rest[j - 1];
      }
    }
  }

  /** A strictly ascending sequence is determined by its elements. */
  lemma {:induction false} AscendingUnique(a: seq<string>, b: seq<string>)
    requires StrictlyAscending(a) && StrictlyAscending(b)
    requires forall k :: k in a <==> k in b
    requires |a| == |b|
    ensures a == b
    decreases |a|
  {
    if a != [] {
      assert a[0] in b;
      assert b != [];
      if a[0] != b[0] {
        assert b[0] in a;
        var i :| 0 <= i < |a| && a[i] == b[0];
        var j :| 0 <= j < |b| && b[j] == a[0];
        assert Less(a[0], b[0]) by {
          assert i != 0;
        }
        assert Less(b[0], a[0]) by {
          assert j != 0;
        }
        LessAsymmetric(a[0], b[0]);
        assert false;
      }
      forall k ensures k in a[1..] <==> k in b[1..] {
        if k in a[1..] {
          var i :| 1 <= i < |a| && a[i] == k;
          LessIrreflexive(a[0]);
          assert k != a[0] && k in b;
          var j :| 0 <= j < |b| && b[j] == k;
          assert j != 0;
        }
        if k in b[1..] {
          var j :| 1 <= j < |b| && b[j] == k;
          LessIrreflexive(b[0]);
          assert k != b[0] && k in a;
          var i :| 0 <= i < |a| && a[i] == k;
          assert i != 0;
        }
      }
      AscendingUnique(a[1..], b[1..]);
      assert a == [a[0]] + a[1..] && b == [b[0]] + b[1..];
    }
  }

  /** A strictly ascending sequence holds no key twice. */
  lemma {:induction false} AscendingCardinality(r: seq<string>)
    requires StrictlyAscending(r)
    ensures |set k | k in r| == |r|
    decreases |r|
  {
    if r != [] {
      AscendingCardinality(r[1..]);
      var t := set k | k in r[1..];
      forall j | 1 <= j < |r| ensures r[j] != r[0] {
        LessIrreflexive(r[0]);
      }
      assert r[0] !in t;
      assert (set k | k in r) == t + {r[0]};
    }
  }

  /**
   * TreeMap iteration, characterised independently of how SortedKeys picks
   * its keys: a sequence is the iteration order of `keys` exactly when it
   * is strictly ascending and holds exactly the members of `keys`.
   */
  lemma SortedKeysCharacterised(keys: set<string>, r: seq<string>)
    ensures r == SortedKeys(keys) <==> StrictlyAscending(r) && forall k :: k in r <==> k in keys
  {
    if StrictlyAscending(r) && forall k :: k in r <==> k in keys {
      AscendingCardinality(r);
      assert (set k | k in r) == keys;
      AscendingUnique(r, SortedKeys(keys));
    }
  }

  /** Iteration starts with the least key and goes on with the rest. */
  lemma SortedKeysFirst(keys: set<string>, k: string)
    requires IsLeast(k, keys)
    ensures SortedKeys(keys) == [k] + SortedKeys(keys - {k})
  {
    var r := [k] + SortedKeys(keys - {k});
    LeastThenAscending(k, keys, SortedKeys(keys - {k}));
    SortedKeysCharacterised(keys, r);
  }

  /** One step of iterating a TreeMap: the least remaining key comes next. */
  lemma NextKey(keys: set<string>, visited: seq<string>, remaining: set<string>, k: string)
    requires SortedKeys(keys) == visited + SortedKeys(remaining)
    requires IsLeast(k, remaining)
    ensures SortedKeys(keys) == (visited + [k]) + SortedKeys(remaining - {k})
    ensures forall m :: IsLeast(m, remaining) ==> m == k
  {
    forall m | IsLeast(m, remaining) ensures m == k {
      LeastUnique(m, k, remaining);
    }
    SortedKeysFirst(remaining, k);
  }
}
