/**
 Ordinal string order, as `std::string::operator<` compares: character by
 character, and a proper prefix before any longer string.  It is used to list
 course identifiers (so "CS101" comes before "CS50", and upper case before
 lower case).
 */
module Ordinal {

  /** `a < b` in lexicographic order on character codes. */
  predicate Less(a: string, b: string)
  {
    if |a| == 0 then |b| > 0
    else if |b| == 0 then false
    else if a[0] != b[0] then a[0] < b[0]
    else Less(a[1..], b[1..])
  }

  /** Every element is before every later element: sorted, no duplicates. */
  predicate StrictlyAscending(s: seq<string>)
  {
    forall i, j :: 0 <= i < j < |s| ==> Less(s[i], s[j])
  }

  /** `m` is in `keys` and no member of `keys` is before it. */
  predicate IsLeast(m: string, keys: set<string>)
  {
    m in keys && forall k :: k in keys ==> !Less(k, m)
  }

  /** `a` and `b` agree before position `i`, and at `i` the character of
      `a` is the smaller. */
  predicate DiffersAt(a: string, b: string, i: int)
  {
    0 <= i < |a| && i < |b| && a[..i] == b[..i] && a[i] < b[i]
  }

  /** `a` is before `b` by their first difference: `a` is a proper prefix of
      `b`, or at the first position where they differ `a` has the smaller
      character. */
  predicate FirstDifferenceBefore(a: string, b: string)
  {
    || (|a| < |b| && a == b[..|a|])
    || exists i :: 0 <= i < |a| && DiffersAt(a, b, i)
  }

  /** The recursive order is exactly the first-difference order. */
  lemma {:induction false} LessIsFirstDifference(a: string, b: string)
    ensures Less(a, b) <==> FirstDifferenceBefore(a, b)
    decreases |a|
  {
    if |a| == 0 {
      assert |b| > 0 ==> a == b[..0];
    } else if |b| == 0 {
    } else if a[0] != b[0] {
      FirstDifferenceAtHead(a, b);
    } else {
      LessIsFirstDifference(a[1..], b[1..]);
      FirstDifferenceSharedHead(a, b);
    }
  }

  /** When the first characters differ, they decide. */
  lemma FirstDifferenceAtHead(a: string, b: string)
    requires |a| > 0 && |b| > 0 && a[0] != b[0]
    ensures FirstDifferenceBefore(a, b) <==> a[0] < b[0]
  {
    if a[0] < b[0] {
      assert DiffersAt(a, b, 0);
    }
    forall i | DiffersAt(a, b, i) ensures i == 0 {
      if i > 0 {
        assert false;
      }
    }
  }

  /** A shared first character passes the comparison on to the rest. */
  lemma FirstDifferenceSharedHead(a: string, b: string)
    requires |a| > 0 && |b| > 0 && a[0] == b[0]
    ensures FirstDifferenceBefore(a, b) <==> FirstDifferenceBefore(a[1..], b[1..])
  {
    var a', b' := a[1..], b[1..];
    if |a| < |b| {
      assert b[..|a|] == [b[0]] + b'[..|a'|];
      assert a == [a[0]] + a';
    }
    forall i | DiffersAt(a, b, i) ensures DiffersAt(a', b', i - 1) {
      assert a[..i][0] == b[..i][0];
      assert a'[..i - 1] == a[..i][1..] && b'[..i - 1] == b[..i][1..];
    }
    forall i | DiffersAt(a', b', i) ensures DiffersAt(a, b, i + 1) {
      assert a[..i + 1] == [a[0]] + a'[..i] && b[..i + 1] == [b[0]] + b'[..i];
    }
  }

  lemma {:induction false} LessIrreflexive(a: string)
    ensures !Less(a, a)
    decreases |a|
  {
    if |a| > 0 {
      LessIrreflexive(a[1..]);
    }
  }

  lemma {:induction false} LessTransitive(a: string, b: string, c: string)
    requires Less(a, b) && Less(b, c)
    ensures Less(a, c)
    decreases |a|
  {
    if |a| > 0 && a[0] == b[0] && b[0] == c[0] {
      LessTransitive(a[1..], b[1..], c[1..]);
    }
  }

  /** Any two different strings are ordered one way or the other. */
  lemma {:induction false} LessTotal(a: string, b: string)
    requires a != b
    ensures Less(a, b) || Less(b, a)
    decreases |a|
  {
    if |a| > 0 && |b| > 0 && a[0] == b[0] {
      assert a == [a[0]] + a[1..];
      assert b == [b[0]] + b[1..];
      LessTotal(a[1..], b[1..]);
    }
  }

  lemma LessAsymmetric(a: string, b: string)
    requires Less(a, b)
    ensures !Less(b, a)
  {
    if Less(b, a) {
      LessTransitive(a, b, a);
      LessIrreflexive(a);
    }
  }

  /** A non-empty set of strings has a least element. */
  lemma {:induction false} LeastExists(keys: set<string>)
    requires keys != {}
    ensures exists m :: IsLeast(m, keys)
    decreases |keys|
  {
    var x :| x in keys;
    var rest := keys - {x};
    if rest == {} {
      assert keys == {x};
      LessIrreflexive(x);
      assert IsLeast(x, keys);
    } else {
      LeastExists(rest);
      var m :| IsLeast(m, rest);
      if Less(x, m) {
        forall k | k in keys ensures !Less(k, x) {
          if k == x {
            LessIrreflexive(x);
          } else if Less(k, x) {
            LessTransitive(k, x, m);
          }
        }
        assert IsLeast(x, keys);
      } else {
        assert IsLeast(m, keys);
      }
    }
  }

  /** The least element of a set is unique. */
  lemma LeastUnique(keys: set<string>)
    ensures forall m1, m2 :: IsLeast(m1, keys) && IsLeast(m2, keys) ==> m1 == m2
  {
    forall m1, m2 | IsLeast(m1, keys) && IsLeast(m2, keys) ensures m1 == m2 {
      if m1 != m2 {
        LessTotal(m1, m2);
      }
    }
  }

  /** The members of `keys` in ascending order, found by taking the least
      remaining identifier each time. */
  function SortedIds(keys: set<string>): (ids: seq<string>)
    ensures StrictlyAscending(ids)
    ensures |ids| == |keys|
    ensures forall i :: 0 <= i < |ids| ==> ids[i] in keys
    ensures forall k :: k in keys ==> k in ids
    decreases |keys|
  {
    if keys == {} then []
    else
      LeastExists(keys);
      LeastUnique(keys);
      var m :| IsLeast(m, keys);
      var rest := SortedIds(keys - {m});
      assert forall i :: 0 <= i < |rest| ==> Less(m, rest[i]) by {
        forall i | 0 <= i < |rest| ensures Less(m, rest[i]) {
          LessTotal(m, rest[i]);
        }
      }
      [m] + rest
  }

  /** Two strictly ascending sequences with the same members are equal: the
      order is fixed by the members alone. */
  lemma {:induction false} AscendingUnique(a: seq<string>, b: seq<string>)
    requires StrictlyAscending(a) && StrictlyAscending(b)
    requires forall x :: x in a <==> x in b
    ensures a == b
    decreases |a|
  {
    assert |a| > 0 ==> a[0] in b;
    assert |b| > 0 ==> b[0] in a;
    if |a| > 0 && |b| > 0 {
      if a[0] != b[0] {
        assert a[0] in b;
        assert b[0] in a;
        var i :| 0 <= i < |a| && a[i] == b[0];
        var j :| 0 <= j < |b| && b[j] == a[0];
        assert Less(a[0], b[0]);
        assert Less(b[0], a[0]);
        LessAsymmetric(a[0], b[0]);
      }
      forall x ensures x in a[1..] <==> x in b[1..] {
        if x in a[1..] {
          var i :| 1 <= i < |a| && a[i] == x;
          LessIrreflexive(a[0]);
          assert x in b;
          var j :| 0 <= j < |b| && b[j] == x;
          if j == 0 { LessIrreflexive(x); }
        }
        if x in b[1..] {
          var j :| 1 <= j < |b| && b[j] == x;
          LessIrreflexive(b[0]);
          assert x in a;
          var i :| 0 <= i < |a| && a[i] == x;
          if i == 0 { LessIrreflexive(x); }
        }
      }
      AscendingUnique(a[1..], b[1..]);
      assert a == [a[0]] + a[1..];
      assert b == [b[0]] + b[1..];
    }
  }
}
