/** Little-endian integers and length-prefixed texts, written and read back. */
module Wire {
  import opened Prelude
  import opened Cryptography

  function Power256(width: nat): nat {
    if width == 0 then 1 else 256 * Power256(width - 1)
  }

  function PutUint(width: nat, n: nat): Bytes {
    if width == 0 then [] else [n % 256] + PutUint(width - 1, n / 256)
  }

  function GetUint(width: nat, b: Bytes): nat
    requires width <= |b|
  {
    if width == 0 then 0 else b[0] + 256 * GetUint(width - 1, b[1..])
  }

  predicate IsU32(n: int) { 0 <= n < 0x1_0000_0000 }

  predicate IsU64(n: int) { 0 <= n < 0x1_0000_0000_0000_0000 }

  function PutU32(n: nat): Bytes { PutUint(4, n) }

  function PutU64(n: nat): Bytes { PutUint(8, n) }

  function PutText(t: Text): Bytes { PutU32(|t|) + t }

  function GetU32(b: Bytes): Option<(nat, Bytes)> {
    if |b| < 4 then None else Some((GetUint(4, b), b[4..]))
  }

  function GetU64(b: Bytes): Option<(nat, Bytes)> {
    if |b| < 8 then None else Some((GetUint(8, b), b[8..]))
  }

  function GetText(b: Bytes): Option<(Text, Bytes)> {
    var (n, rest) :- GetU32(b);
    if |rest| < n then None else Some((rest[..n], rest[n..]))
  }

  lemma {:induction false} PutUintLength(width: nat, n: nat)
    ensures |PutUint(width, n)| == width
  {
    if width > 0 {
      PutUintLength(width - 1, n / 256);
    }
  }

  lemma {:induction false} GetPutUint(width: nat, n: nat, rest: Bytes)
    requires n < Power256(width)
    ensures |PutUint(width, n)| == width
    ensures GetUint(width, PutUint(width, n) + rest) == n
    ensures (PutUint(width, n) + rest)[width..] == rest
  {
    PutUintLength(width, n);
    if width > 0 {
      GetPutUint(width - 1, n / 256, rest);
      var b := PutUint(width, n) + rest;
      assert b[1..] == PutUint(width - 1, n / 256) + rest;
    }
  }

  lemma PowersOf256()
    ensures Power256(4) == 0x1_0000_0000
    ensures Power256(8) == 0x1_0000_0000_0000_0000
  {
  }

  function FourDigits(n: nat): Bytes {
    [n % 256, n / 0x100 % 256, n / 0x1_0000 % 256, n / 0x100_0000 % 256]
  }

  lemma FirstFourBytes(width: nat, n: nat)
    requires width >= 4
    ensures PutUint(width, n) == FourDigits(n) + PutUint(width - 4, n / 0x1_0000_0000)
  {
    assert PutUint(width - 1, n / 0x100) == [n / 0x100 % 256] + PutUint(width - 2, n / 0x1_0000);
    assert PutUint(width - 2, n / 0x1_0000) == [n / 0x1_0000 % 256] + PutUint(width - 3, n / 0x100_0000);
    assert PutUint(width - 3, n / 0x100_0000) == [n / 0x100_0000 % 256] + PutUint(width - 4, n / 0x1_0000_0000);
  }

  /** The low byte comes first. */
  lemma U32IsLittleEndian(n: nat)
    requires IsU32(n)
    ensures PutU32(n) == FourDigits(n)
  {
    FirstFourBytes(4, n);
    assert PutUint(0, n / 0x1_0000_0000) == [];
  }

  lemma U64IsLittleEndian(n: nat)
    requires IsU64(n)
    ensures PutU64(n) == FourDigits(n) + FourDigits(n / 0x1_0000_0000)
  {
    FirstFourBytes(8, n);
    U32IsLittleEndian(n / 0x1_0000_0000);
  }

  lemma ReadsU32(n: nat, rest: Bytes)
    requires IsU32(n)
    ensures GetU32(PutU32(n) + rest) == Some((n, rest))
  {
    PowersOf256();
    GetPutUint(4, n, rest);
  }

  lemma ReadsU64(n: nat, rest: Bytes)
    requires IsU64(n)
    ensures GetU64(PutU64(n) + rest) == Some((n, rest))
  {
    PowersOf256();
    GetPutUint(8, n, rest);
  }

  /** A text read back is the text written, whatever follows it. */
  lemma ReadsText(t: Text, rest: Bytes)
    requires IsU32(|t|)
    ensures GetText(PutText(t) + rest) == Some((t, rest))
  {
    assert PutText(t) + rest == PutU32(|t|) + (t + rest);
    ReadsU32(|t|, t + rest);
    assert (t + rest)[..|t|] == t && (t + rest)[|t|..] == rest;
  }

  lemma PutTextLength(t: Text)
    ensures |PutText(t)| == 4 + |t|
  {
    PutUintLength(4, |t|);
  }

  lemma Reassociate(a: Bytes, b: Bytes, rest: Bytes)
    ensures (a + b) + rest == a + (b + rest)
  {
  }

  /** A message written field by field, read as a first field and what follows it. */
  lemma Reassociate7(a: Bytes, b: Bytes, c: Bytes, d: Bytes, e: Bytes, f: Bytes, g: Bytes, rest: Bytes)
    ensures (a + b + c + d + e + f + g) + rest == a + (b + (c + (d + (e + (f + (g + rest))))))
  {
  }

  /** Appending seven fields one after the other appends their concatenation. */
  lemma Appends7(x: Bytes, a: Bytes, b: Bytes, c: Bytes, d: Bytes, e: Bytes, f: Bytes, g: Bytes)
    ensures x + a + b + c + d + e + f + g == x + (a + b + c + d + e + f + g)
  {
  }

  // ----- Lists: every element written by `put`, and read back by `get` -----

  function PutAll<T>(put: T -> Bytes, xs: seq<T>): Bytes {
    if xs == [] then [] else PutAll(put, xs[..|xs| - 1]) + put(xs[|xs| - 1])
  }

  function GetAll<T>(get: Bytes -> Option<(T, Bytes)>, n: nat, b: Bytes): Option<(seq<T>, Bytes)> {
    if n == 0 then Some(([], b))
    else
      var (x, b1) :- get(b);
      var (rest, b2) :- GetAll(get, n - 1, b1);
      Some(([x] + rest, b2))
  }

  /** `get` undoes `put`, whatever follows. */
  ghost predicate Undoes<T(!new)>(put: T -> Bytes, get: Bytes -> Option<(T, Bytes)>, x: T) {
    forall rest :: get(put(x) + rest) == Some((x, rest))
  }

  lemma {:induction false} PutAllFromFront<T>(put: T -> Bytes, xs: seq<T>)
    requires xs != []
    ensures PutAll(put, xs) == put(xs[0]) + PutAll(put, xs[1..])
  {
    var n := |xs| - 1;
    if n > 0 {
      PutAllFromFront(put, xs[..n]);
      var middle := xs[1..][..n - 1];
      assert xs[..n][1..] == middle && xs[1..][n - 1] == xs[n];
      Reassociate(put(xs[0]), PutAll(put, middle), put(xs[n]));
    }
  }

  lemma {:induction false} ReadsAll<T(!new)>(put: T -> Bytes, get: Bytes -> Option<(T, Bytes)>, xs: seq<T>, rest: Bytes)
    requires forall x :: x in xs ==> Undoes(put, get, x)
    ensures GetAll(get, |xs|, PutAll(put, xs) + rest) == Some((xs, rest))
  {
    if xs == [] {
      assert PutAll(put, xs) + rest == rest;
    } else {
      PutAllFromFront(put, xs);
      Reassociate(put(xs[0]), PutAll(put, xs[1..]), rest);
      assert Undoes(put, get, xs[0]);
      ReadsAll(put, get, xs[1..], rest);
      assert [xs[0]] + xs[1..] == xs;
    }
  }

  /** Writing one more element appends its bytes. */
  lemma PutAllOneMore<T>(put: T -> Bytes, xs: seq<T>, i: nat, head: Bytes)
    requires i < |xs|
    ensures head + PutAll(put, xs[..i]) + put(xs[i]) == head + PutAll(put, xs[..i + 1])
  {
    assert xs[..i + 1][..i] == xs[..i];
    Reassociate(head, PutAll(put, xs[..i]), put(xs[i]));
  }

  lemma {:induction false} PutAllLength<T>(put: T -> Bytes, xs: seq<T>, bound: nat)
    requires forall x :: x in xs ==> |put(x)| <= bound
    ensures |PutAll(put, xs)| <= bound * |xs|
  {
    if xs != [] {
      PutAllLength(put, xs[..|xs| - 1], bound);
      assert bound * |xs| == bound * (|xs| - 1) + bound;
    }
  }

  lemma DropsPrefix(p: Bytes, b: Bytes)
    ensures p <= p + b && (p + b)[|p|..] == b
  {
  }

}
