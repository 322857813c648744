/**
 * UTF-8 as Go's `unicode/utf8` decodes it, and what `encoding/json` does to
 * a string that is not valid UTF-8. `json.Marshal` writes every byte that
 * does not start a valid encoded rune as `�`, so a string read back
 * with `json.Unmarshal` has each such byte replaced by U+FFFD.
 */
module Utf8 {
  import opened Bytes

  predicate Continuation(b: byte) {
    0x80 <= b <= 0xBF
  }

  /**
   * The length of the valid encoded rune `s` starts with, or 0 where
   * `utf8.DecodeRune` reports `RuneError` of size 1: a byte that cannot
   * start a rune, a second byte outside the range its first byte allows
   * (no overlong forms, no surrogates, nothing above U+10FFFF), a missing
   * continuation byte, or a rune cut off by the end of `s`.
   */
  function RuneLength(s: Bytes): (n: nat)
    requires s != []
    ensures n <= 4 && n <= |s|
    ensures s[0] < 0x80 ==> n == 1
  {
    var b := s[0];
    if b < 0x80 then 1
    else if 0xC2 <= b <= 0xDF then
      if |s| >= 2 && Continuation(s[1]) then 2 else 0
    else if 0xE0 <= b <= 0xEF then
      var lo: byte := if b == 0xE0 then 0xA0 else 0x80;
      var hi: byte := if b == 0xED then 0x9F else 0xBF;
      if |s| >= 3 && lo <= s[1] <= hi && Continuation(s[2]) then 3 else 0
    else if 0xF0 <= b <= 0xF4 then
      var lo: byte := if b == 0xF0 then 0x90 else 0x80;
      var hi: byte := if b == 0xF4 then 0x8F else 0xBF;
      if |s| >= 4 && lo <= s[1] <= hi && Continuation(s[2]) && Continuation(s[3]) then 4 else 0
    else 0
  }

  /** `utf8.Valid`: the bytes are a sequence of valid encoded runes. */
  predicate Valid(s: Bytes)
    decreases |s|
  {
    s == [] || (RuneLength(s) > 0 && Valid(s[RuneLength(s)..]))
  }

  /** U+FFFD, the replacement character, encoded. */
  const Replacement: Bytes := [0xEF, 0xBF, 0xBD]

  /** A string after a `json.Marshal`/`json.Unmarshal` round trip: each byte that starts no valid rune becomes U+FFFD. */
  function Coerce(s: Bytes): Bytes
    decreases |s|
  {
    if s == [] then []
    else if RuneLength(s) == 0 then Replacement + Coerce(s[1..])
    else s[..RuneLength(s)] + Coerce(s[RuneLength(s)..])
  }

  /** Decoding a valid rune looks at its own bytes only, whatever follows it. */
  lemma RuneLengthExtends(s: Bytes, t: Bytes)
    requires s != [] && RuneLength(s) > 0
    ensures RuneLength(s[..RuneLength(s)] + t) == RuneLength(s)
  {
    var n := RuneLength(s);
    var u := s[..n] + t;
    assert forall k :: 0 <= k < n ==> u[k] == s[k];
  }

  /** A valid rune followed by valid text is valid text. */
  lemma ValidAfterRune(s: Bytes, t: Bytes)
    requires s != [] && RuneLength(s) > 0 && Valid(t)
    ensures Valid(s[..RuneLength(s)] + t)
  {
    var n := RuneLength(s);
    RuneLengthExtends(s, t);
    assert (s[..n] + t)[n..] == t;
  }

  /** Whatever went in, what comes back from JSON is valid UTF-8. */
  lemma {:induction false} CoerceValid(s: Bytes)
    ensures Valid(Coerce(s))
    decreases |s|
  {
    if s != [] {
      if RuneLength(s) == 0 {
        CoerceValid(s[1..]);
        assert RuneLength(Replacement) == 3;
        assert Replacement[..3] == Replacement;
        ValidAfterRune(Replacement, Coerce(s[1..]));
      } else {
        CoerceValid(s[RuneLength(s)..]);
        ValidAfterRune(s, Coerce(s[RuneLength(s)..]));
      }
    }
  }

  /** Valid text comes back from JSON unchanged. */
  lemma {:induction false} CoerceKeepsValid(s: Bytes)
    requires Valid(s)
    ensures Coerce(s) == s
    decreases |s|
  {
    if s != [] {
      CoerceKeepsValid(s[RuneLength(s)..]);
      assert s[..RuneLength(s)] + s[RuneLength(s)..] == s;
    }
  }

  /** JSON leaves a string as it is exactly when the string is valid UTF-8, and a second round trip changes nothing. */
  lemma CoerceUnchangedIffValid(s: Bytes)
    ensures Coerce(s) == s <==> Valid(s)
    ensures Coerce(Coerce(s)) == Coerce(s)
  {
    CoerceValid(s);
    if Valid(s) {
      CoerceKeepsValid(s);
    }
    CoerceKeepsValid(Coerce(s));
  }

  /** ASCII text is valid UTF-8. */
  lemma {:induction false} AsciiValid(s: Bytes)
    requires forall i :: 0 <= i < |s| ==> s[i] < 0x80
    ensures Valid(s)
    decreases |s|
  {
    if s != [] {
      AsciiValid(s[1..]);
    }
  }

  /** JSON leaves a valid prefix as it is: only what follows it can change. */
  lemma {:induction false} CoerceAfterValid(s: Bytes, t: Bytes)
    requires Valid(s)
    ensures Coerce(s + t) == s + Coerce(t)
    decreases |s|
  {
    if s == [] {
      assert s + t == t;
    } else {
      var n := RuneLength(s);
      var rest := s[n..];
      ValidRest(s);
      calc {
        Coerce(s + t);
        { assert s + t == s[..n] + (rest + t); }
        Coerce(s[..n] + (rest + t));
        { CoerceAfterRune(s, rest + t); }
        s[..n] + Coerce(rest + t);
        { CoerceAfterValid(rest, t); }
        s[..n] + (rest + Coerce(t));
        { assert s[..n] + rest == s; }
        s + Coerce(t);
      }
    }
  }

  /**
   * Text cut right after the first byte of a multi-byte rune, as a read
   * into a fixed buffer can cut it, comes back from JSON with that byte
   * replaced by U+FFFD.
   */
  lemma CutAfterLeadByte(s: Bytes, b: byte)
    requires Valid(s) && 0xC2 <= b <= 0xF4
    ensures Coerce(s + [b]) == s + Replacement
  {
    CoerceAfterValid(s, [b]);
    LoneLeadByte(b);
  }

  /** Valid text that is not empty starts with a valid rune and goes on with valid text. */
  lemma ValidRest(s: Bytes)
    requires s != [] && Valid(s)
    ensures RuneLength(s) > 0 && Valid(s[RuneLength(s)..])
  {
  }

  /** JSON keeps a valid rune as it is and goes on after it. */
  lemma CoerceAfterRune(s: Bytes, t: Bytes)
    requires s != [] && RuneLength(s) > 0
    ensures Coerce(s[..RuneLength(s)] + t) == s[..RuneLength(s)] + Coerce(t)
  {
    var n := RuneLength(s);
    var u := s[..n] + t;
    RuneLengthExtends(s, t);
    assert u[..n] == s[..n] && u[n..] == t;
  }

  /** A lead byte alone starts no rune and comes back as U+FFFD. */
  lemma LoneLeadByte(b: byte)
    requires 0xC2 <= b <= 0xF4
    ensures Coerce([b]) == Replacement
  {
    assert RuneLength([b]) == 0;
    assert [b][1..] == [];
  }

  /** A Unicode scalar value: a code point up to U+10FFFF that is not a surrogate. */
  predicate IsScalar(c: int) {
    0 <= c < 0x110000 && !(0xD800 <= c < 0xE000)
  }

  /** The shortest UTF-8 encoding of a scalar value, as `utf8.EncodeRune` writes it. */
  function Encode(c: int): (r: Bytes)
    requires IsScalar(c)
    ensures 1 <= |r| <= 4
    ensures |r| == 1 <==> c < 0x80
  {
    if c < 0x80 then [c as byte]
    else if c < 0x800 then [(0xC0 + c / 64) as byte, (0x80 + c % 64) as byte]
    else if c < 0x10000 then
      [(0xE0 + c / 4096) as byte, (0x80 + c / 64 % 64) as byte, (0x80 + c % 64) as byte]
    else
      [(0xF0 + c / 262144) as byte, (0x80 + c / 4096 % 64) as byte,
       (0x80 + c / 64 % 64) as byte, (0x80 + c % 64) as byte]
  }

  /** The scalar value of the rune `s` starts with, as `utf8.DecodeRune` returns it. */
  function RuneValue(s: Bytes): int
    requires s != [] && RuneLength(s) > 0
  {
    var n := RuneLength(s);
    if n == 1 then s[0] as int
    else if n == 2 then (s[0] as int - 0xC0) * 64 + (s[1] as int - 0x80)
    else if n == 3 then (s[0] as int - 0xE0) * 4096 + (s[1] as int - 0x80) * 64 + (s[2] as int - 0x80)
    else (s[0] as int - 0xF0) * 262144 + (s[1] as int - 0x80) * 4096 + (s[2] as int - 0x80) * 64 + (s[3] as int - 0x80)
  }

  /**
   * Decoding the encoding of a scalar value, whatever follows it, takes
   * exactly the encoding's bytes and gives the value back.
   */
  lemma EncodeDecodes(c: int, t: Bytes)
    requires IsScalar(c)
    ensures RuneLength(Encode(c) + t) == |Encode(c)|
    ensures RuneValue(Encode(c) + t) == c
  {
    var e := Encode(c);
    var u := e + t;
    assert u[0] == e[0];
    if c < 0x80 {
    } else if c < 0x800 {
      assert u[1] == e[1];
    } else if c < 0x10000 {
      assert u[1] == e[1] && u[2] == e[2];
      EncodeThree(c);
    } else {
      assert u[1] == e[1] && u[2] == e[2] && u[3] == e[3];
      EncodeFour(c);
    }
  }

  lemma EncodeThree(c: int)
    requires IsScalar(c) && 0x800 <= c < 0x10000
    ensures var e := Encode(c);
      && (e[0] == 0xE0 ==> e[1] >= 0xA0)
      && (e[0] == 0xED ==> e[1] <= 0x9F)
      && c == (e[0] as int - 0xE0) * 4096 + (e[1] as int - 0x80) * 64 + (e[2] as int - 0x80)
  {
    var x, y, z := c / 4096, c / 64 % 64, c % 64;
    assert c / 64 == x * 64 + y;
    assert c == x * 4096 + y * 64 + z;
  }

  lemma EncodeFour(c: int)
    requires IsScalar(c) && 0x10000 <= c
    ensures var e := Encode(c);
      && (e[0] == 0xF0 ==> e[1] >= 0x90)
      && (e[0] == 0xF4 ==> e[1] <= 0x8F)
      && c == (e[0] as int - 0xF0) * 262144 + (e[1] as int - 0x80) * 4096 + (e[2] as int - 0x80) * 64 + (e[3] as int - 0x80)
  {
    var w, x, y, z := c / 262144, c / 4096 % 64, c / 64 % 64, c % 64;
    assert c / 4096 == w * 64 + x;
    assert c / 64 == (w * 64 + x) * 64 + y;
    assert c == w * 262144 + x * 4096 + y * 64 + z;
  }

  /**
   * Conversely, every rune `RuneLength` accepts is the shortest encoding of
   * a scalar value: no overlong form, no surrogate, nothing above U+10FFFF.
   */
  lemma DecodeEncodes(s: Bytes)
    requires s != [] && RuneLength(s) > 0
    ensures IsScalar(RuneValue(s))
    ensures Encode(RuneValue(s)) == s[..RuneLength(s)]
  {
    var n, c := RuneLength(s), RuneValue(s);
    if n == 2 {
      assert 0x80 <= c < 0x800;
      assert c / 64 == s[0] as int - 0xC0 && c % 64 == s[1] as int - 0x80;
    } else if n == 3 {
      DecodeThree(s);
    } else if n == 4 {
      DecodeFour(s);
    }
  }

  lemma DecodeThree(s: Bytes)
    requires s != [] && RuneLength(s) == 3
    ensures IsScalar(RuneValue(s)) && 0x800 <= RuneValue(s) < 0x10000
    ensures Encode(RuneValue(s)) == s[..3]
  {
    var c := RuneValue(s);
    var x, y, z := s[0] as int - 0xE0, s[1] as int - 0x80, s[2] as int - 0x80;
    assert c == x * 4096 + y * 64 + z;
    assert c / 64 == x * 64 + y && c % 64 == z;
    assert c / 4096 == x && c / 64 % 64 == y;
  }

  lemma DecodeFour(s: Bytes)
    requires s != [] && RuneLength(s) == 4
    ensures IsScalar(RuneValue(s)) && 0x10000 <= RuneValue(s)
    ensures Encode(RuneValue(s)) == s[..4]
  {
    var c := RuneValue(s);
    var w, x, y, z := s[0] as int - 0xF0, s[1] as int - 0x80, s[2] as int - 0x80, s[3] as int - 0x80;
    assert c == w * 262144 + x * 4096 + y * 64 + z;
    assert c / 64 == w * 4096 + x * 64 + y && c % 64 == z;
    assert c / 4096 == w * 64 + x && c / 64 % 64 == y;
    assert c / 262144 == w && c / 4096 % 64 == x;
  }

  /**
   * `RuneLength` is 0, the one-byte `RuneError` case, exactly when no
   * scalar value's encoding starts `s`.
   */
  lemma RuneLengthIffEncoded(s: Bytes)
    requires s != []
    ensures RuneLength(s) > 0 <==> exists c :: IsScalar(c) && IsPrefix(Encode(c), s)
  {
    if RuneLength(s) > 0 {
      DecodeEncodes(s);
      assert IsPrefix(Encode(RuneValue(s)), s);
    }
    if c :| IsScalar(c) && IsPrefix(Encode(c), s) {
      EncodeDecodes(c, s[|Encode(c)|..]);
      assert Encode(c) + s[|Encode(c)|..] == s;
    }
  }
}
