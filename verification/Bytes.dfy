/** Bytes, byte strings and the few wrappers every other module uses. */
module Bytes {
  type byte = b: int | 0 <= b < 256
  type bytes = seq<byte>

  datatype Option<+T> = None | Some(value: T)

  predicate Distinct(s: seq<bytes>) { forall i, j :: 0 <= i < j < |s| ==> s[i] != s[j] }

  // ----- decimal digits and names -----

  predicate IsDigit(c: byte) { 0x30 <= c <= 0x39 }

  predicate AreDigits(d: bytes) { forall k :: 0 <= k < |d| ==> IsDigit(d[k]) }

  /** The number that decimal digits write. */
  function DigitsValue(d: bytes): nat
    requires AreDigits(d)
  {
    if d == [] then 0 else DigitsValue(d[..|d| - 1]) * 10 + (d[|d| - 1] - 0x30)
  }

  /** More digits write no smaller number. */
  lemma {:induction false} DigitsGrow(d: bytes, k: nat)
    requires AreDigits(d) && k <= |d|
    ensures AreDigits(d[..k]) && DigitsValue(d[..k]) <= DigitsValue(d)
    decreases |d| - k
  {
    if k < |d| {
      DigitsGrow(d, k + 1);
      assert d[..k + 1][..k] == d[..k];
    } else {
      assert d[..k] == d;
    }
  }

  predicate IsNameStart(c: byte) { 0x41 <= c <= 0x5A || 0x61 <= c <= 0x7A || c == 0x5F }

  /** A name of the C language. */
  predicate IsIdentifier(name: bytes) {
    name != [] && IsNameStart(name[0]) && forall k :: 0 <= k < |name| ==> IsNameStart(name[k]) || IsDigit(name[k])
  }

  /** The bytes of a text in ASCII. */
  function Ascii(s: string): (b: bytes)
    requires forall k :: 0 <= k < |s| ==> s[k] < '\U{80}'
    ensures |b| == |s|
  {
    seq(|s|, k requires 0 <= k < |s| => s[k] as int)
  }

  /** The code of a character. */
  function Code(c: char): (b: int) { c as int }

  lemma Characters(c: byte)
    ensures IsDigit(c) <==> Code('0') <= c <= Code('9')
    ensures IsNameStart(c) <==> Code('A') <= c <= Code('Z') || Code('a') <= c <= Code('z') || c == Code('_')
  {
  }

  // ----- texts inside texts -----

  /** The text t stands in s at index i. */
  ghost predicate At(s: bytes, i: nat, t: bytes) {
    i + |t| <= |s| && s[i..i + |t|] == t
  }

  lemma AtConcat(s: bytes, i: nat, a: bytes, b: bytes)
    ensures At(s, i, a + b) <==> At(s, i, a) && At(s, i + |a|, b)
  {
    var t := a + b;
    if At(s, i, t) {
      assert s[i..i + |t|] == t;
      forall k | 0 <= k < |a| ensures s[i..i + |a|][k] == a[k] { assert s[i..i + |t|][k] == t[k]; }
      forall k | 0 <= k < |b| ensures s[i + |a|..i + |t|][k] == b[k] { assert s[i..i + |t|][|a| + k] == t[|a| + k]; }
    }
    if At(s, i, a) && At(s, i + |a|, b) {
      forall k | 0 <= k < |t| ensures s[i..i + |t|][k] == t[k] {
        if k < |a| { assert s[i..i + |a|][k] == a[k]; } else { assert s[i + |a|..i + |t|][k - |a|] == b[k - |a|]; }
      }
    }
  }

  lemma AtSlice(s: bytes, i: nat, j: nat)
    requires i <= j <= |s|
    ensures At(s, i, s[i..j])
  {
  }

  lemma AtIs(s: bytes, i: nat, t: bytes)
    requires At(s, i, t)
    ensures i + |t| <= |s| && s[i..i + |t|] == t
  {
  }

  lemma AtEmpty(s: bytes, i: nat)
    requires i <= |s|
    ensures At(s, i, [])
  {
  }

  lemma AtByte(s: bytes, i: nat)
    requires i < |s|
    ensures At(s, i, [s[i]])
  {
    assert s[i..i + 1] == [s[i]];
  }

  lemma AtIndex(s: bytes, i: nat, t: bytes, k: nat)
    requires At(s, i, t) && k < |t|
    ensures s[i + k] == t[k]
  {
    assert s[i..i + |t|][k] == s[i + k];
  }
}
