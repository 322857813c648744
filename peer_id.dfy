/**
 * Peer identities. A Go `peer.ID` holds the raw multihash bytes of the
 * node's public key; `peer.ID.String()` is their base58 text and
 * `peer.Decode` reads such a text back. Both directions of the base58
 * conversion are modelled and shown to be inverse to each other.
 */
module PeerIds {
  import opened Outcomes
  import opened Bytes

  /** The raw bytes held by a Go `peer.ID`. */
  type PeerId = Bytes

  /** The value of a digit sequence, most significant digit first. */
  function FromDigits(d: seq<nat>, base: nat): nat {
    if d == [] then 0 else FromDigits(d[..|d| - 1], base) * base + d[|d| - 1]
  }

  /** The shortest digit sequence of `n`: empty for zero, no leading zero otherwise. */
  function ToDigits(n: nat, base: nat): seq<nat>
    requires base >= 2
  {
    if n == 0 then [] else ToDigits(n / base, base) + [n % base]
  }

  predicate DigitsBelow(d: seq<nat>, base: nat) {
    forall i :: 0 <= i < |d| ==> d[i] < base
  }

  predicate NoLeadingZero(d: seq<nat>) {
    d == [] || d[0] != 0
  }

  lemma DivModUnique(q: nat, r: nat, base: nat)
    requires base >= 2 && r < base
    ensures (q * base + r) / base == q && (q * base + r) % base == r
  {
    var n := q * base + r;
    var q', r' := n / base, n % base;
    assert n == q' * base + r' && 0 <= r' < base;
    if q' > q {
      MulMonotone(q + 1, q', base);
      assert false;
    }
    if q' < q {
      MulMonotone(q' + 1, q, base);
      assert false;
    }
  }

  lemma MulMonotone(a: nat, b: nat, c: nat)
    requires a <= b
    ensures a * c <= b * c
  {
  }

  lemma {:induction false} ToDigitsShape(n: nat, base: nat)
    requires base >= 2
    ensures DigitsBelow(ToDigits(n, base), base)
    ensures NoLeadingZero(ToDigits(n, base))
    ensures FromDigits(ToDigits(n, base), base) == n
  {
    if n > 0 {
      var d := ToDigits(n, base);
      ToDigitsShape(n / base, base);
      assert d[..|d| - 1] == ToDigits(n / base, base);
      if n / base == 0 {
        assert d == [n % base];
      }
    }
  }

  lemma {:induction false} FromDigitsPositive(d: seq<nat>, base: nat)
    requires base >= 2 && d != [] && d[0] != 0
    ensures FromDigits(d, base) > 0
  {
    if |d| > 1 {
      FromDigitsPositive(d[..|d| - 1], base);
    }
  }

  /** Reading a shortest digit sequence and writing its value back gives the same digits. */
  lemma {:induction false} ToFromDigits(d: seq<nat>, base: nat)
    requires base >= 2 && DigitsBelow(d, base) && NoLeadingZero(d)
    ensures ToDigits(FromDigits(d, base), base) == d
  {
    if d != [] {
      var front := d[..|d| - 1];
      FromDigitsPositive(d, base);
      DivModUnique(FromDigits(front, base), d[|d| - 1], base);
      if front != [] {
        assert front[0] == d[0];
      }
      ToFromDigits(front, base);
      assert d == front + [d[|d| - 1]];
    }
  }

  /** The base58 alphabet of Bitcoin and of libp2p: no 0, O, I or l. */
  function DigitChar(d: nat): (c: byte)
    requires d < 58
  {
    if d < 9 then (49 + d) as byte            // '1' .. '9'
    else if d < 17 then (65 + d - 9) as byte  // 'A' .. 'H'
    else if d < 22 then (74 + d - 17) as byte // 'J' .. 'N'
    else if d < 33 then (80 + d - 22) as byte // 'P' .. 'Z'
    else if d < 44 then (97 + d - 33) as byte // 'a' .. 'k'
    else (109 + d - 44) as byte               // 'm' .. 'z'
  }

  function DigitValue(c: byte): (r: Option<nat>)
    ensures r.Some? ==> r.value < 58 && DigitChar(r.value) == c
  {
    if 49 <= c <= 57 then Some(c as nat - 49)
    else if 65 <= c <= 72 then Some(c as nat - 65 + 9)
    else if 74 <= c <= 78 then Some(c as nat - 74 + 17)
    else if 80 <= c <= 90 then Some(c as nat - 80 + 22)
    else if 97 <= c <= 107 then Some(c as nat - 97 + 33)
    else if 109 <= c <= 122 then Some(c as nat - 109 + 44)
    else None
  }

  lemma DigitValueOfChar(d: nat)
    requires d < 58
    ensures DigitValue(DigitChar(d)) == Some(d)
  {
  }

  predicate IsBase58(s: Bytes) {
    forall i :: 0 <= i < |s| ==> DigitValue(s[i]).Some?
  }

  function ByteDigits(raw: Bytes): (d: seq<nat>)
    ensures |d| == |raw| && DigitsBelow(d, 256)
  {
    seq(|raw|, i requires 0 <= i < |raw| => raw[i] as nat)
  }

  function DigitBytes(d: seq<nat>): Bytes
    requires DigitsBelow(d, 256)
  {
    seq(|d|, i requires 0 <= i < |d| => d[i] as byte)
  }

  function CharDigits(s: Bytes): (d: seq<nat>)
    requires IsBase58(s)
    ensures |d| == |s| && DigitsBelow(d, 58)
  {
    seq(|s|, i requires 0 <= i < |s| => DigitValue(s[i]).value)
  }

  function DigitChars(d: seq<nat>): Bytes
    requires DigitsBelow(d, 58)
  {
    seq(|d|, i requires 0 <= i < |d| => DigitChar(d[i]))
  }

  /** The text of a number with no leading zero byte. */
  function EncodeNumber(raw: Bytes): Bytes {
    var n := FromDigits(ByteDigits(raw), 256);
    ToDigitsShape(n, 58);
    DigitChars(ToDigits(n, 58))
  }

  function DecodeNumber(s: Bytes): Option<Bytes> {
    if !IsBase58(s) then None
    else
      var n := FromDigits(CharDigits(s), 58);
      ToDigitsShape(n, 256);
      Some(DigitBytes(ToDigits(n, 256)))
  }

  /** `peer.ID.String()`: each leading zero byte becomes a '1', the rest is the number in base 58. */
  function Text(id: PeerId): (r: Bytes)
    ensures IsBase58(r)
  {
    if id != [] && id[0] == 0 then
      DigitValueOfChar(0);
      [DigitChar(0)] + Text(id[1..])
    else
      EncodeNumberShape(id);
      EncodeNumber(id)
  }

  /** `peer.Decode` on a base58 text; `None` is Go's "invalid peer ID" error. */
  function Decode(s: Bytes): (r: Option<PeerId>)
    ensures r.Some? ==> IsBase58(s)
  {
    if s != [] && s[0] == DigitChar(0) then
      DigitValueOfChar(0);
      match Decode(s[1..])
      case None => None
      case Some(rest) => Some([0 as byte] + rest)
    else DecodeNumber(s)
  }

  lemma EncodeNumberShape(raw: Bytes)
    ensures IsBase58(EncodeNumber(raw))
    ensures EncodeNumber(raw) == [] || EncodeNumber(raw)[0] != DigitChar(0)
  {
    var n := FromDigits(ByteDigits(raw), 256);
    ToDigitsShape(n, 58);
    var d := ToDigits(n, 58);
    forall i | 0 <= i < |d| ensures DigitValue(DigitChars(d)[i]).Some? {
      DigitValueOfChar(d[i]);
    }
    if d != [] {
      DigitValueOfChar(d[0]);
    }
  }

  /** A base58 text never holds a '/': this keeps storage keys built from it unambiguous. */
  lemma Base58HasNoSlash(s: Bytes)
    requires IsBase58(s)
    ensures forall i :: 0 <= i < |s| ==> s[i] != 47
  {
    forall i | 0 <= i < |s| ensures s[i] != 47 {
      assert DigitValue(s[i]).Some?;
    }
  }

  lemma DecodeEncodeNumber(raw: Bytes)
    requires raw == [] || raw[0] != 0
    ensures DecodeNumber(EncodeNumber(raw)) == Some(raw)
  {
    var bd := ByteDigits(raw);
    var n := FromDigits(bd, 256);
    ToDigitsShape(n, 58);
    var d := ToDigits(n, 58);
    EncodeNumberShape(raw);
    var s := EncodeNumber(raw);
    forall i | 0 <= i < |d| ensures CharDigits(s)[i] == d[i] {
      DigitValueOfChar(d[i]);
    }
    assert CharDigits(s) == d;
    ToFromDigits(bd, 256);
    assert DigitBytes(bd) == raw;
  }

  lemma EncodeDecodeNumber(s: Bytes)
    requires IsBase58(s) && (s == [] || s[0] != DigitChar(0))
    ensures DecodeNumber(s).Some? && EncodeNumber(DecodeNumber(s).value) == s
  {
    var d := CharDigits(s);
    var n := FromDigits(d, 58);
    ToDigitsShape(n, 256);
    var raw := DigitBytes(ToDigits(n, 256));
    assert ByteDigits(raw) == ToDigits(n, 256);
    if s != [] {
      DigitValueOfChar(0);
    }
    ToFromDigits(d, 58);
    assert DigitChars(d) == s;
  }

  /** Every peer ID's text decodes back to that peer ID. */
  lemma {:induction false} DecodeText(id: PeerId)
    ensures Decode(Text(id)) == Some(id)
  {
    if id != [] && id[0] == 0 {
      DecodeText(id[1..]);
      assert Text(id)[1..] == Text(id[1..]);
      assert id == [0 as byte] + id[1..];
    } else {
      EncodeNumberShape(id);
      DecodeEncodeNumber(id);
    }
  }

  /** Every text `peer.Decode` accepts is the text of the peer ID it yields. */
  lemma {:induction false} TextDecode(s: Bytes)
    requires Decode(s).Some?
    ensures Text(Decode(s).value) == s
  {
    if s != [] && s[0] == DigitChar(0) {
      TextDecode(s[1..]);
      assert s == [s[0]] + s[1..];
    } else {
      EncodeDecodeNumber(s);
      var raw := Decode(s).value;
      if raw != [] && raw[0] == 0 {
        ToDigitsShape(FromDigits(CharDigits(s), 58), 256);
      }
    }
  }
}
