/** Shared vocabulary: optional and failing values, bytes, and texts.

    The repository compares, measures and signs its strings as UTF-8 bytes, so a text
    is a sequence of bytes and texts are ordered byte by byte. */
module Prelude {

  datatype Option<+T> = None | Some(value: T) {
    predicate IsFailure() { None? }

    function PropagateFailure<U>(): Option<U>
      requires None?
    {
      None
    }

    function Extract(): T
      requires Some?
    {
      value
    }
  }

  datatype Result<+T, +E> = Ok(value: T) | Err(error: E) {
    predicate IsFailure() { Err? }

    function PropagateFailure<U>(): Result<U, E>
      requires Err?
    {
      Err(error)
    }

    function Extract(): T
      requires Ok?
    {
      value
    }
  }

  type byte = b: int | 0 <= b < 256

  type Text = seq<byte>

  /** The bytes of a string literal whose characters are all below U+0100. */
  function Ascii(s: string): Text {
    seq(|s|, i requires 0 <= i < |s| => (s[i] as int) % 256)
  }

  function Max(a: int, b: int): int {
    if a < b then b else a
  }

  function Min(a: int, b: int): int {
    if a < b then a else b
  }

  /** Strict lexicographic order on bytes: the order of Rust's `str` and of SQLite's
      default collation. */
  predicate Precedes(a: Text, b: Text) {
    b != [] &&
    (a == [] || a[0] < b[0] || (a[0] == b[0] && Precedes(a[1..], b[1..])))
  }

  /** The two texts agree up to a byte that is smaller in `a`. */
  predicate SmallerAt(a: Text, b: Text, k: nat) {
    k < |a| && k < |b| && a[..k] == b[..k] && a[k] < b[k]
  }

  /** A text precedes another exactly when it is a proper prefix of it or is smaller at the
      first byte that differs. */
  lemma {:induction false} FirstDifferenceDecides(a: Text, b: Text)
    ensures Precedes(a, b) <==> a < b || exists k: nat :: SmallerAt(a, b, k)
  {
    if a == [] || b == [] {
    } else if a[0] != b[0] {
      assert SmallerAt(a, b, 0) <==> a[0] < b[0];
      assert forall k: nat :: SmallerAt(a, b, k) ==> k == 0 || a[..k][0] == b[..k][0];
    } else {
      FirstDifferenceDecides(a[1..], b[1..]);
      SameHead(a, b);
      if k: nat :| SmallerAt(a, b, k) {
        assert SmallerAt(a[1..], b[1..], k - 1);
      }
      if k: nat :| SmallerAt(a[1..], b[1..], k) {
        assert SmallerAt(a, b, k + 1);
      }
    }
  }

  /** Behind equal heads nothing changes. */
  lemma SameHead(a: Text, b: Text)
    requires a != [] && b != [] && a[0] == b[0]
    ensures a < b <==> a[1..] < b[1..]
    ensures !SmallerAt(a, b, 0)
    ensures forall k: nat :: SmallerAt(a[1..], b[1..], k) ==> SmallerAt(a, b, k + 1)
    ensures forall k: nat :: k > 0 && SmallerAt(a, b, k) ==> SmallerAt(a[1..], b[1..], k - 1)
  {
    assert a == [a[0]] + a[1..] && b == [b[0]] + b[1..];
    if a[1..] < b[1..] {
      assert b[..|a|] == [b[0]] + b[1..][..|a| - 1] == a;
    }
    if a < b {
      assert b[1..][..|a| - 1] == b[..|a|][1..];
    }
    forall k: nat | k < |a| - 1 && k < |b| - 1 ensures a[..k + 1] == b[..k + 1] <==> a[1..][..k] == b[1..][..k] {
      assert a[..k + 1] == [a[0]] + a[1..][..k] && b[..k + 1] == [b[0]] + b[1..][..k];
      assert a[1..][..k] == a[..k + 1][1..] && b[1..][..k] == b[..k + 1][1..];
    }
  }

  lemma {:induction false} PrecedesIsIrreflexive(a: Text)
    ensures !Precedes(a, a)
  {
    if a != [] {
      PrecedesIsIrreflexive(a[1..]);
    }
  }

  lemma {:induction false} PrecedesIsTransitive(a: Text, b: Text, c: Text)
    requires Precedes(a, b) && Precedes(b, c)
    ensures Precedes(a, c)
  {
    if a != [] && a[0] == b[0] && b[0] == c[0] {
      PrecedesIsTransitive(a[1..], b[1..], c[1..]);
    }
  }

  lemma {:induction false} PrecedesIsTotal(a: Text, b: Text)
    ensures a == b || Precedes(a, b) || Precedes(b, a)
  {
    if a != [] && b != [] && a[0] == b[0] {
      PrecedesIsTotal(a[1..], b[1..]);
      assert a[1..] == b[1..] ==> a == [a[0]] + a[1..] == [b[0]] + b[1..] == b;
    }
  }

  lemma PrecedesIsAsymmetric(a: Text, b: Text)
    requires Precedes(a, b)
    ensures !Precedes(b, a)
    ensures a != b
  {
  }
}
