/** Keys and the order `strcmp` puts them in. */
module Keys {

  /** A key, as the C code holds it in a NUL-terminated buffer. */
  type Key = seq<char>

  /** `a` is a proper prefix of `b`. */
  predicate ProperPrefix(a: Key, b: Key) {
    |a| < |b| && a == b[..|a|]
  }

  /** `a` and `b` agree before position `j` and differ there, `a` holding the smaller
      character. */
  predicate FirstDiffLower(a: Key, b: Key, j: nat) {
    j < |a| && j < |b| && a[..j] == b[..j] && a[j] < b[j]
  }

  /** `strcmp(a, b) < 0`, computed a character at a time as `strcmp` does. */
  predicate Less(a: Key, b: Key)
    ensures Less(a, b) <==> ProperPrefix(a, b) || exists j: nat :: FirstDiffLower(a, b, j)
    decreases |a|
  {
    if |b| == 0 then false
    else if |a| == 0 then true
    else if a[0] != b[0] then LexHead(a, b); a[0] < b[0]
    else LexTail(a, b); Less(a[1..], b[1..])
  }

  /** Keys whose first characters differ are ordered by those characters alone. */
  lemma LexHead(a: Key, b: Key)
    requires |a| > 0 && |b| > 0 && a[0] != b[0]
    ensures !ProperPrefix(a, b)
    ensures (exists j: nat :: FirstDiffLower(a, b, j)) <==> a[0] < b[0]
  {
    if a[0] < b[0] {
      assert FirstDiffLower(a, b, 0);
    }
    forall j: nat | FirstDiffLower(a, b, j)
      ensures a[0] < b[0]
    {
      if j > 0 {
        assert a[..j][0] == b[..j][0];
      }
    }
  }

  /** Keys with the same first character compare as their tails do. */
  lemma LexTail(a: Key, b: Key)
    requires |a| > 0 && |b| > 0 && a[0] == b[0]
    ensures ProperPrefix(a, b) <==> ProperPrefix(a[1..], b[1..])
    ensures (exists j: nat :: FirstDiffLower(a, b, j))
        <==> (exists j: nat :: FirstDiffLower(a[1..], b[1..], j))
  {
    assert a == [a[0]] + a[1..] && b == [b[0]] + b[1..];
    if ProperPrefix(a[1..], b[1..]) {
      assert b[..|a|] == [b[0]] + b[1..][..|a| - 1];
    }
    if ProperPrefix(a, b) {
      assert b[1..][..|a| - 1] == b[..|a|][1..];
    }
    forall j: nat | FirstDiffLower(a, b, j)
      ensures FirstDiffLower(a[1..], b[1..], j - 1)
    {
      if j == 0 {
        assert false;
      }
      assert a[1..][..j - 1] == a[..j][1..] && b[1..][..j - 1] == b[..j][1..];
    }
    forall j: nat | FirstDiffLower(a[1..], b[1..], j)
      ensures FirstDiffLower(a, b, j + 1)
    {
      assert a[..j + 1] == [a[0]] + a[1..][..j] && b[..j + 1] == [b[0]] + b[1..][..j];
    }
  }

  /** `strcmp(a, b) <= 0`. */
  predicate LessEq(a: Key, b: Key) {
    !Less(b, a)
  }

  lemma {:induction false} LessIrreflexive(a: Key)
    ensures !Less(a, a)
  {
    if |a| > 0 {
      LessIrreflexive(a[1..]);
    }
  }

  lemma {:induction false} LessAsymmetric(a: Key, b: Key)
    requires Less(a, b)
    ensures !Less(b, a)
  {
    if |a| > 0 && |b| > 0 && a[0] == b[0] {
      LessAsymmetric(a[1..], b[1..]);
    }
  }

  lemma {:induction false} LessTransitive(a: Key, b: Key, c: Key)
    requires Less(a, b) && Less(b, c)
    ensures Less(a, c)
  {
    if |a| > 0 && |b| > 0 && |c| > 0 && a[0] == b[0] && b[0] == c[0] {
      LessTransitive(a[1..], b[1..], c[1..]);
    }
  }

  /** Two keys neither of which sorts before the other are equal: `strcmp` is a total order. */
  lemma {:induction false} LessTrichotomy(a: Key, b: Key)
    ensures Less(a, b) || a == b || Less(b, a)
  {
    if |a| > 0 && |b| > 0 && a[0] == b[0] {
      LessTrichotomy(a[1..], b[1..]);
      if a[1..] == b[1..] {
        assert a == [a[0]] + a[1..] && b == [b[0]] + b[1..];
      }
    }
  }

  lemma LessEqTransitive(a: Key, b: Key, c: Key)
    requires LessEq(a, b) && LessEq(b, c)
    ensures LessEq(a, c)
  {
    if Less(c, a) {
      LessTrichotomy(b, c);
      if Less(b, c) {
        LessTransitive(b, c, a);
      }
    }
  }

  lemma LessThenLessEq(a: Key, b: Key, c: Key)
    requires Less(a, b) && LessEq(b, c)
    ensures Less(a, c)
  {
    LessTrichotomy(b, c);
    if Less(b, c) {
      LessTransitive(a, b, c);
    }
  }
}
