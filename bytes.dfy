/**
 * Go strings and byte slices are both modelled as sequences of bytes, so
 * that `string(buf[:n])`, `[]byte(s)` and key comparisons in the store are
 * exact. String literals of the source are all ASCII and enter the model
 * through `Ascii`.
 */
module Bytes {

  newtype byte = b: int | 0 <= b < 256

  type Bytes = seq<byte>

  /** Go's `int64`, the type of `time.Now().UnixNano()` and `time.Now().Unix()`. */
  newtype int64 = x: int | -0x8000_0000_0000_0000 <= x < 0x8000_0000_0000_0000

  /** The bytes of an ASCII literal. */
  function Ascii(s: string): Bytes {
    seq(|s|, i requires 0 <= i < |s| => (s[i] as int % 256) as byte)
  }

  /** Everything a reader sees when the chunks arrive one after the other. */
  function Concat(chunks: seq<Bytes>): Bytes {
    if chunks == [] then [] else chunks[0] + Concat(chunks[1..])
  }

  lemma {:induction false} ConcatAppend(a: seq<Bytes>, b: seq<Bytes>)
    ensures Concat(a + b) == Concat(a) + Concat(b)
  {
    if a == [] {
      assert a + b == b;
    } else {
      assert (a + b)[1..] == a[1..] + b;
      ConcatAppend(a[1..], b);
    }
  }

  predicate IsPrefix(p: Bytes, s: Bytes) {
    |p| <= |s| && s[..|p|] == p
  }

  /** The bytewise order in which an ordered key-value store keeps its keys. */
  predicate LexLess(a: Bytes, b: Bytes) {
    if |a| == 0 then |b| > 0
    else if |b| == 0 then false
    else a[0] < b[0] || (a[0] == b[0] && LexLess(a[1..], b[1..]))
  }

  lemma {:induction false} LexLessIrreflexive(a: Bytes)
    ensures !LexLess(a, a)
  {
    if |a| > 0 { LexLessIrreflexive(a[1..]); }
  }

  lemma {:induction false} LexLessTransitive(a: Bytes, b: Bytes, c: Bytes)
    requires LexLess(a, b) && LexLess(b, c)
    ensures LexLess(a, c)
  {
    if |a| > 0 && |b| > 0 && |c| > 0 && a[0] == b[0] == c[0] {
      LexLessTransitive(a[1..], b[1..], c[1..]);
    }
  }

  lemma {:induction false} LexLessTotal(a: Bytes, b: Bytes)
    ensures a == b || LexLess(a, b) || LexLess(b, a)
  {
    if |a| > 0 && |b| > 0 && a[0] == b[0] {
      LexLessTotal(a[1..], b[1..]);
      if a[1..] == b[1..] {
        assert a == [a[0]] + a[1..] && b == [b[0]] + b[1..];
      }
    }
  }

  lemma {:induction false} LexLessAsymmetric(a: Bytes, b: Bytes)
    requires LexLess(a, b)
    ensures !LexLess(b, a)
  {
    if |a| > 0 && |b| > 0 && a[0] == b[0] {
      LexLessAsymmetric(a[1..], b[1..]);
    }
  }

  /** Keys that share a prefix compare as their remainders do. */
  lemma {:induction false} LexLessCommonPrefix(p: Bytes, a: Bytes, b: Bytes)
    ensures LexLess(p + a, p + b) <==> LexLess(a, b)
  {
    if |p| == 0 {
      assert p + a == a && p + b == b;
    } else {
      assert (p + a)[1..] == p[1..] + a;
      assert (p + b)[1..] == p[1..] + b;
      LexLessCommonPrefix(p[1..], a, b);
    }
  }

  /** Two sequences of equal length, each extended by one element, compare first on the common-length part. */
  lemma {:induction false} LexLessSnoc(s: Bytes, x: byte, t: Bytes, y: byte)
    requires |s| == |t|
    ensures LexLess(s + [x], t + [y]) <==> LexLess(s, t) || (s == t && x < y)
  {
    if |s| == 0 {
      assert s + [x] == [x] && t + [y] == [y];
      assert [x][1..] == [] && [y][1..] == [];
    } else {
      assert (s + [x])[1..] == s[1..] + [x];
      assert (t + [y])[1..] == t[1..] + [y];
      LexLessSnoc(s[1..], x, t[1..], y);
      if s[0] == t[0] && s[1..] == t[1..] {
        assert s == [s[0]] + s[1..] && t == [t[0]] + t[1..];
      }
    }
  }

  /** The digits of a natural number in decimal, as written by Go's `%d`. */
  function Digits(n: nat): (r: Bytes)
    ensures |r| > 0
    ensures forall i :: 0 <= i < |r| ==> 48 <= r[i] <= 57
  {
    if n < 10 then [(48 + n) as byte] else Digits(n / 10) + [(48 + n % 10) as byte]
  }

  /** Go's `fmt.Sprintf("%d", n)`: an optional minus sign, then the digits. */
  function Decimal(n: int): (r: Bytes)
    ensures r != [] && (r[0] == 45 <==> n < 0)
    ensures forall i :: 0 <= i < |r| ==> r[i] == 45 || 48 <= r[i] <= 57
  {
    if n < 0 then Ascii("-") + Digits(-n) else Digits(n)
  }

  /** Numbers compare as their quotient by ten, then their last digit. */
  lemma DecimalSplitOrder(a: nat, b: nat)
    ensures a < b <==> a / 10 < b / 10 || (a / 10 == b / 10 && a % 10 < b % 10)
    ensures a == b <==> a / 10 == b / 10 && a % 10 == b % 10
  {
    assert a == 10 * (a / 10) + a % 10;
    assert b == 10 * (b / 10) + b % 10;
  }

  /**
   * Decimal texts of equal length sort bytewise exactly as the numbers
   * they write: this is what makes timestamp-derived keys chronological.
   */
  lemma {:induction false} DigitsOrder(a: nat, b: nat)
    requires |Digits(a)| == |Digits(b)|
    ensures LexLess(Digits(a), Digits(b)) <==> a < b
    ensures Digits(a) == Digits(b) <==> a == b
  {
    if a < 10 && b < 10 {
      assert Digits(a) == [(48 + a) as byte] && Digits(b) == [(48 + b) as byte];
    } else if a < 10 || b < 10 {
      assert false;
    } else {
      var qa, qb := a / 10, b / 10;
      var x, y := (48 + a % 10) as byte, (48 + b % 10) as byte;
      assert Digits(a) == Digits(qa) + [x];
      assert Digits(b) == Digits(qb) + [y];
      DecimalSplitOrder(a, b);
      DigitsOrder(qa, qb);
      LexLessSnoc(Digits(qa), x, Digits(qb), y);
      if Digits(a) == Digits(b) {
        assert Digits(a)[..|Digits(qa)|] == Digits(qa);
        assert Digits(b)[..|Digits(qb)|] == Digits(qb);
      }
    }
  }

  function Pow10(k: nat): (r: nat)
    ensures r >= 1
  {
    if k == 0 then 1 else 10 * Pow10(k - 1)
  }

  /** A number from 10^(k-1) up to 10^k is written with exactly k digits. */
  lemma {:induction false} DigitsLength(n: nat, k: nat)
    requires k > 0 && Pow10(k - 1) <= n < Pow10(k)
    ensures |Digits(n)| == k
  {
    if k > 1 {
      assert n >= 10;
      assert Pow10(k - 2) <= n / 10 < Pow10(k - 1);
      DigitsLength(n / 10, k - 1);
    }
  }

  /**
   * Every nanosecond time an `int64` holds from 10^18 (September 2001) on,
   * up to its end in April 2262, is written with 19 digits, so such IDs
   * sort bytewise exactly in time order.
   */
  lemma NanosecondIdsChronological(a: int64, b: int64)
    requires a >= 1_000_000_000_000_000_000 && b >= 1_000_000_000_000_000_000
    ensures LexLess(Decimal(a as int), Decimal(b as int)) <==> a < b
    ensures Decimal(a as int) == Decimal(b as int) <==> a == b
  {
    // Unfold Pow10 one power at a time.
    assert Pow10(0) == 1 && Pow10(1) == 10 && Pow10(2) == 100 && Pow10(3) == 1000;
    assert Pow10(6) == 1_000_000 && Pow10(9) == 1_000_000_000;
    assert Pow10(12) == 1_000_000_000_000 && Pow10(15) == 1_000_000_000_000_000;
    assert Pow10(18) == 1_000_000_000_000_000_000;
    assert Pow10(19) == 10_000_000_000_000_000_000;
    DigitsLength(a as nat, 19);
    DigitsLength(b as nat, 19);
    DigitsOrder(a as nat, b as nat);
  }
}
