/**
 * The conversation key of the dialog service: one canonical string for an
 * unordered pair of user ids, the smaller id (in Go's string order, here
 * compared character by character) first, joined by an underscore.
 */
module DialogKey {

  const Separator: char := '_'

  /** Go's `a < b` on strings: lexicographic, a proper prefix is smaller. */
  predicate Less(a: string, b: string)
    ensures Less(a, b) ==> a != b
    ensures |a| < |b| && a == b[..|a|] ==> Less(a, b)
    decreases |a|
  {
    if a == [] then b != []
    else if b == [] then false
    else if a[0] != b[0] then a[0] < b[0]
    else Less(a[1..], b[1..])
  }

  /** An id that the key scheme can embed without ambiguity. */
  predicate NoSeparator(id: string) {
    Separator !in id
  }

  /** `createDialogKey`: the two ids joined by the separator, in one of the two orders. */
  function CreateDialogKey(userId1: string, userId2: string): (k: string)
    ensures k == userId1 + [Separator] + userId2 || k == userId2 + [Separator] + userId1
    ensures |k| == |userId1| + |userId2| + 1
  {
    if Less(userId1, userId2) then userId1 + [Separator] + userId2
    else userId2 + [Separator] + userId1
  }

  lemma {:induction false} LessIrreflexive(a: string)
    ensures !Less(a, a)
    decreases |a|
  {
    if a != [] {
      LessIrreflexive(a[1..]);
    }
  }

  lemma {:induction false} LessTransitive(a: string, b: string, c: string)
    requires Less(a, b) && Less(b, c)
    ensures Less(a, c)
    decreases |a|
  {
    if a != [] && a[0] == b[0] && b[0] == c[0] {
      LessTransitive(a[1..], b[1..], c[1..]);
    }
  }

  /** Go's string order is a strict total order: of two distinct ids exactly one is smaller. */
  lemma {:induction false} LessTrichotomy(a: string, b: string)
    ensures a != b <==> (Less(a, b) != Less(b, a))
    decreases |a|
  {
    if a == [] || b == [] {
    } else if a[0] != b[0] {
    } else {
      LessTrichotomy(a[1..], b[1..]);
      assert a == [a[0]] + a[1..] && b == [b[0]] + b[1..];
    }
  }

  /** The key does not depend on the order of its arguments. */
  lemma KeySymmetric(userId1: string, userId2: string)
    ensures CreateDialogKey(userId1, userId2) == CreateDialogKey(userId2, userId1)
  {
    LessTrichotomy(userId1, userId2);
  }

  /** Whatever the call direction, the smaller id comes first in the key. */
  lemma KeyPutsSmallerFirst(smaller: string, larger: string)
    requires Less(smaller, larger)
    ensures CreateDialogKey(smaller, larger) == smaller + [Separator] + larger
    ensures CreateDialogKey(larger, smaller) == smaller + [Separator] + larger
  {
    LessTrichotomy(smaller, larger);
  }

  /** Two separator-free halves are recovered from the separator-joined string. */
  lemma SeparatorSplitsUniquely(p: string, q: string, x: string, y: string)
    requires NoSeparator(p) && NoSeparator(q)
    requires p + [Separator] + q == x + [Separator] + y
    ensures p == x && q == y
  {
    var s := p + [Separator] + q;
    assert s[|p|] == Separator;
    assert (x + [Separator] + y)[|x|] == Separator;
    if |x| < |p| {
      assert false;
    } else if |x| > |p| {
      assert false;
    }
    assert p == s[..|p|] == x;
    assert q == s[|p| + 1..] == y;
  }

  /**
   * When neither id of the pair contains the separator, the key identifies the
   * unordered pair: any pair that produces the same key is the same pair.
   */
  lemma KeyDeterminesPair(a: string, b: string, c: string, d: string)
    requires NoSeparator(a) && NoSeparator(b)
    requires CreateDialogKey(c, d) == CreateDialogKey(a, b)
    ensures (c == a && d == b) || (c == b && d == a)
  {
    var k := CreateDialogKey(a, b);
    if k == a + [Separator] + b {
      if k == c + [Separator] + d {
        SeparatorSplitsUniquely(a, b, c, d);
      } else {
        SeparatorSplitsUniquely(a, b, d, c);
      }
    } else {
      if k == c + [Separator] + d {
        SeparatorSplitsUniquely(b, a, c, d);
      } else {
        SeparatorSplitsUniquely(b, a, d, c);
      }
    }
  }

  /** Without that restriction the key is not injective: two different pairs share a key. */
  lemma KeyCollision()
    ensures CreateDialogKey("a_b", "c") == CreateDialogKey("a", "b_c") == "a_b_c"
  {
  }
}
