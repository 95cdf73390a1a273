/**
 * String behaviour the core relies on: the order SQLite uses to compare TEXT
 * values (ISO-8601 timestamps are compared this way), JavaScript truthiness of
 * an optional string, and `String.prototype.includes`.
 */
module Strings {
  import opened Wrappers

  /**
   * SQLite's default BINARY collation: memcmp over UTF-8 bytes, which orders
   * strings by code point, a proper prefix first.
   */
  predicate TextLe(a: string, b: string)
    decreases |a|
  {
    a == [] || (b != [] && (a[0] < b[0] || (a[0] == b[0] && TextLe(a[1..], b[1..]))))
  }

  predicate IsPrefix(a: string, b: string) {
    |a| <= |b| && a == b[..|a|]
  }

  /** Independent reading of the same order: `a` is a prefix of `b`, or at the first position where they differ `a` is smaller. */
  ghost predicate LeByFirstDifference(a: string, b: string) {
    IsPrefix(a, b) || exists i :: 0 <= i < |a| && i < |b| && a[..i] == b[..i] && a[i] < b[i]
  }

  lemma {:induction false} TextLeIsFirstDifferenceOrder(a: string, b: string)
    ensures TextLe(a, b) <==> LeByFirstDifference(a, b)
  {
    if a == [] {
      assert IsPrefix(a, b);
    } else if b == [] {
      assert !IsPrefix(a, b);
    } else if a[0] < b[0] {
      assert a[..0] == b[..0];
    } else if a[0] > b[0] {
      forall i | 0 < i <= |a| && i <= |b|
        ensures a[..i] != b[..i]
      {
        assert a[..i][0] == a[0] && b[..i][0] == b[0];
      }
    } else {
      TextLeIsFirstDifferenceOrder(a[1..], b[1..]);
      FirstDifferenceOfTails(a, b);
    }
  }

  /** Dropping a common first character does not change the first-difference order. */
  lemma FirstDifferenceOfTails(a: string, b: string)
    requires a != [] && b != [] && a[0] == b[0]
    ensures LeByFirstDifference(a, b) <==> LeByFirstDifference(a[1..], b[1..])
  {
    var a', b' := a[1..], b[1..];
    assert IsPrefix(a, b) <==> IsPrefix(a', b') by {
      if IsPrefix(a', b') {
        assert a == [a[0]] + a' && b[..|a|] == [b[0]] + b'[..|a'|];
      }
      if IsPrefix(a, b) {
        assert a' == a[1..] == b[..|a|][1..] == b'[..|a'|];
      }
    }
    if i :| 0 <= i < |a| && i < |b| && a[..i] == b[..i] && a[i] < b[i] {
      assert i != 0;
      assert a'[..i-1] == a[..i][1..] == b[..i][1..] == b'[..i-1];
      assert a'[i-1] < b'[i-1];
    }
    if i :| 0 <= i < |a'| && i < |b'| && a'[..i] == b'[..i] && a'[i] < b'[i] {
      assert a[..i+1] == [a[0]] + a'[..i] && b[..i+1] == [b[0]] + b'[..i];
      assert a[i+1] < b[i+1];
    }
  }

  lemma {:induction false} TextLeReflexive(a: string)
    ensures TextLe(a, a)
  {
    if a != [] { TextLeReflexive(a[1..]); }
  }

  lemma {:induction false} TextLeTotal(a: string, b: string)
    ensures TextLe(a, b) || TextLe(b, a)
  {
    if a != [] && b != [] && a[0] == b[0] { TextLeTotal(a[1..], b[1..]); }
  }

  lemma {:induction false} TextLeAntisymmetric(a: string, b: string)
    requires TextLe(a, b) && TextLe(b, a)
    ensures a == b
  {
    if a != [] {
      TextLeAntisymmetric(a[1..], b[1..]);
      assert a == [a[0]] + a[1..] && b == [b[0]] + b[1..];
    }
  }

  lemma {:induction false} TextLeTransitive(a: string, b: string, c: string)
    requires TextLe(a, b) && TextLe(b, c)
    ensures TextLe(a, c)
  {
    if a != [] && a[0] == b[0] && b[0] == c[0] {
      TextLeTransitive(a[1..], b[1..], c[1..]);
    }
  }

  /** JavaScript truthiness of a value that is a string or absent: absent and `''` are false. */
  predicate Truthy(s: Option<string>) {
    s.Some? && s.value != ""
  }

  /** `s.includes(t)`: `t` occurs in `s` starting at some position. */
  predicate Includes(s: string, t: string)
    decreases |s|
  {
    IsPrefix(t, s) || (s != [] && Includes(s[1..], t))
  }

  /** `t` stands in `s` at position `i`. */
  predicate OccursAt(s: string, t: string, i: int) {
    0 <= i <= |s| - |t| && s[i..i + |t|] == t
  }

  lemma {:induction false} IncludesIsOccurrence(s: string, t: string)
    ensures Includes(s, t) <==> exists i :: OccursAt(s, t, i)
  {
    if IsPrefix(t, s) {
      assert OccursAt(s, t, 0);
    } else if s == [] {
      assert forall i :: !OccursAt(s, t, i);
    } else {
      IncludesIsOccurrence(s[1..], t);
      if i :| OccursAt(s[1..], t, i) {
        assert OccursAt(s, t, i + 1) by { assert s[i + 1..i + 1 + |t|] == s[1..][i..i + |t|]; }
      }
      if i :| OccursAt(s, t, i) {
        assert i != 0 by { assert s[..|t|] == s[0..0 + |t|]; }
        assert OccursAt(s[1..], t, i - 1) by { assert s[1..][i - 1..i - 1 + |t|] == s[i..i + |t|]; }
      }
    }
  }
}
