/** The order that `strcmp` puts on C strings.

    Every char of a `string` stands for one (non-zero) byte; `std::string`'s
    `operator<` gives the same order on them.
 */
module StringOrder {

  // The sign of strcmp(a, b): -1, 0 or 1.
  function Strcmp(a: string, b: string): int
  {
    if a == [] && b == [] then 0
    else if a == [] then -1
    else if b == [] then 1
    else if a[0] < b[0] then -1
    else if a[0] > b[0] then 1
    else Strcmp(a[1..], b[1..])
  }

  predicate Less(a: string, b: string)
  {
    Strcmp(a, b) < 0
  }

  lemma {:induction false} StrcmpSelf(a: string)
    ensures Strcmp(a, a) == 0
  {
    if a != [] {
      StrcmpSelf(a[1..]);
    }
  }

  lemma {:induction false} StrcmpZero(a: string, b: string)
    ensures Strcmp(a, b) == 0 <==> a == b
  {
    if a == b {
      StrcmpSelf(a);
    } else if a != [] && b != [] && a[0] == b[0] {
      assert a == [a[0]] + a[1..] && b == [b[0]] + b[1..];
      StrcmpZero(a[1..], b[1..]);
    }
  }

  lemma {:induction false} StrcmpFlip(a: string, b: string)
    ensures Strcmp(a, b) == -Strcmp(b, a)
  {
    if a != [] && b != [] {
      StrcmpFlip(a[1..], b[1..]);
    }
  }

  lemma {:induction false} LessTransitive(a: string, b: string, c: string)
    requires Less(a, b) && Less(b, c)
    ensures Less(a, c)
  {
    if a != [] && b != [] && c != [] && a[0] == b[0] == c[0] {
      LessTransitive(a[1..], b[1..], c[1..]);
    }
  }

  // Exactly one of: smaller, equal, greater.
  lemma LessTrichotomy(a: string, b: string)
    ensures Less(a, b) || a == b || Less(b, a)
    ensures !(Less(a, b) && Less(b, a))
    ensures Less(a, b) ==> a != b
  {
    StrcmpZero(a, b);
    StrcmpFlip(a, b);
  }

  // The strings agree before place k; there a ends, or has the smaller byte.
  predicate FirstDifference(a: string, b: string, k: nat) {
    && k <= |a| && k < |b| && a[..k] == b[..k]
    && (k < |a| ==> a[k] < b[k])
  }

  lemma {:induction false} LessHasDifference(a: string, b: string)
    requires Less(a, b)
    ensures exists k: nat :: FirstDifference(a, b, k)
  {
    if a != [] && a[0] == b[0] {
      LessHasDifference(a[1..], b[1..]);
      var k: nat :| FirstDifference(a[1..], b[1..], k);
      assert a[..k + 1] == [a[0]] + a[1..][..k] && b[..k + 1] == [b[0]] + b[1..][..k];
      assert FirstDifference(a, b, k + 1);
    } else {
      assert FirstDifference(a, b, 0);
    }
  }

  lemma {:induction false} DifferenceIsLess(a: string, b: string, k: nat)
    requires FirstDifference(a, b, k)
    ensures Less(a, b)
    decreases k
  {
    if k > 0 {
      assert a[0] == a[..k][0] && b[0] == b[..k][0];
      assert a[1..][..k - 1] == a[..k][1..] && b[1..][..k - 1] == b[..k][1..];
      DifferenceIsLess(a[1..], b[1..], k - 1);
    }
  }

  // Which of two strings comes first.
  lemma LessMeaning(a: string, b: string)
    ensures Less(a, b) <==> exists k: nat :: FirstDifference(a, b, k)
  {
    if Less(a, b) {
      LessHasDifference(a, b);
    }
    if k: nat :| FirstDifference(a, b, k) {
      DifferenceIsLess(a, b, k);
    }
  }

  lemma {:induction false} StrcmpCommonPrefix(p: string, a: string, b: string)
    ensures Strcmp(p + a, p + b) == Strcmp(a, b)
  {
    if p == [] {
      assert p + a == a && p + b == b;
    } else {
      assert (p + a)[1..] == p[1..] + a && (p + b)[1..] == p[1..] + b;
      StrcmpCommonPrefix(p[1..], a, b);
    }
  }

  // What follows two differing strings cannot change their order, unless the
  // smaller one is a prefix of the greater one.
  lemma {:induction false} LessExtends(a: string, b: string, x: string, y: string)
    requires Less(a, b)
    requires !(a <= b) || x == []
    ensures Less(a + x, b + y)
  {
    if a == [] {
      assert a + x == [] && b + y != [];
    } else {
      assert (a + x)[1..] == a[1..] + x && (b + y)[1..] == b[1..] + y;
      if a[0] == b[0] {
        if a[1..] <= b[1..] {
          assert a == [a[0]] + a[1..] && b == [b[0]] + b[1..];
          assert a <= b;
        }
        LessExtends(a[1..], b[1..], x, y);
      }
    }
  }
}
