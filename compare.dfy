/** The three-way comparator used to sort word counts in descending order.
    `key` stands for the property name the comparator indexes (`a[key]`);
    keys are compared as numbers. */
module Compare {

  /** -1 when `a` has the larger key, 1 when it has the smaller one, 0 on a tie:
      a comparator under which a sort puts larger keys first. */
  function CompareValue<T>(a: T, b: T, key: T -> int): (r: int)
    ensures r == -1 <==> key(a) > key(b)
    ensures r == 1 <==> key(a) < key(b)
    ensures r == 0 <==> key(a) == key(b)
  {
    if key(a) > key(b) then -1
    else if key(a) < key(b) then 1
    else 0
  }

  lemma CompareValueIsThreeWay<T>(a: T, b: T, key: T -> int)
    ensures CompareValue(a, b, key) in {-1, 0, 1}
  {
  }

  lemma CompareValueReflexive<T>(a: T, key: T -> int)
    ensures CompareValue(a, a, key) == 0
  {
  }

  lemma CompareValueAntisymmetric<T>(a: T, b: T, key: T -> int)
    ensures CompareValue(a, b, key) == -CompareValue(b, a, key)
  {
  }

  lemma CompareValueTransitive<T>(a: T, b: T, c: T, key: T -> int)
    requires CompareValue(a, b, key) <= 0 && CompareValue(b, c, key) <= 0
    ensures CompareValue(a, c, key) <= 0
  {
  }

  /** Every neighbouring pair is in comparator order. */
  ghost predicate AdjacentOrdered<T>(s: seq<T>, key: T -> int)
  {
    forall i :: 0 <= i < |s| - 1 ==> CompareValue(s[i], s[i + 1], key) <= 0
  }

  /** Every pair, near or far, is in comparator order. */
  ghost predicate SortedBy<T>(s: seq<T>, key: T -> int)
  {
    forall i, j :: 0 <= i < j < |s| ==> CompareValue(s[i], s[j], key) <= 0
  }

  /** A law of the comparator on its own: a list in CompareValue order,
      judged pair by neighbouring pair, is in that order pairwise and
      non-increasing in the key throughout. The sort below is stated
      pairwise directly, so nothing else in the model depends on it. */
  lemma {:induction false} AdjacentOrderedIsNonIncreasing<T>(s: seq<T>, key: T -> int)
    requires AdjacentOrdered(s, key)
    ensures SortedBy(s, key)
    ensures forall i, j :: 0 <= i < j < |s| ==> key(s[i]) >= key(s[j])
  {
    if |s| > 1 {
      var t := s[1..];
      assert AdjacentOrdered(t, key) by {
        forall i | 0 <= i < |t| - 1
          ensures CompareValue(t[i], t[i + 1], key) <= 0
        {
          assert t[i] == s[i + 1] && t[i + 1] == s[i + 2];
        }
      }
      AdjacentOrderedIsNonIncreasing(t, key);
      forall i, j | 0 <= i < j < |s|
        ensures CompareValue(s[i], s[j], key) <= 0
      {
        if i == 0 {
          if j > 1 {
            assert s[j] == t[j - 1] && s[1] == t[0];
            CompareValueTransitive(s[0], s[1], s[j], key);
          }
        } else {
          assert s[i] == t[i - 1] && s[j] == t[j - 1];
        }
      }
    }
  }
}
