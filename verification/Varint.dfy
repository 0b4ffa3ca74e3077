/** The variable-length integers every encoding in the store is built from: unsigned
    LEB128, and zigzag for the signed fields of the hashed form of a node. */
module Varint {
  import opened Bytes
  import opened Options

  /** `encode_var_vec` of an unsigned integer. */
  function EncodeVar(n: nat): bytes {
    if n < 128 then [n] else [n % 128 + 128] + EncodeVar(n / 128)
  }

  /** `decode_var`: the value and how many bytes it took, `None` when the input stops short. */
  function DecodeVar(b: bytes): Option<(nat, nat)> {
    if b == [] then None
    else if b[0] < 128 then Some((b[0], 1))
    else match DecodeVar(b[1..]) {
      case None => None
      case Some((high, used)) => Some((high * 128 + (b[0] - 128), used + 1))
    }
  }

  /** `decode_var` at a bounded integer type. */
  function DecodeVarUpTo(b: bytes, max: nat): Option<(nat, nat)> {
    match DecodeVar(b)
    case Some((n, used)) => if n <= max then Some((n, used)) else None
    case None => None
  }

  /** `encode_var_vec` of an `i64`. */
  function EncodeSigned(i: int): bytes {
    EncodeVar(if i >= 0 then 2 * i else -2 * i - 1)
  }

  /** Decoding reads back the number and stops exactly at its end, whatever follows. */
  lemma {:induction false} DecodeEncode(n: nat, rest: bytes)
    ensures DecodeVar(EncodeVar(n) + rest) == Some((n, |EncodeVar(n)|))
    ensures (EncodeVar(n) + rest)[|EncodeVar(n)|..] == rest
    ensures EncodeVar(n) != []
  {
    if n >= 128 {
      DecodeEncode(n / 128, rest);
      assert (EncodeVar(n) + rest)[1..] == EncodeVar(n / 128) + rest;
      assert n == (n / 128) * 128 + n % 128;
    } else {
      assert ([n] + rest)[0] == n;
    }
  }

  /** The number that some bytes spell, seven bits to the byte, the lowest first. */
  ghost function Spelled(b: bytes): nat {
    if b == [] then 0 else b[0] % 128 + 128 * Spelled(b[1..])
  }

  /** LEB128: the high bit is set on every byte but the last, and the last is not a needless zero. */
  ghost predicate IsLeb128(b: bytes) {
    && b != [] && b[|b| - 1] < 128 && (|b| > 1 ==> b[|b| - 1] != 0)
    && forall i :: 0 <= i < |b| - 1 ==> b[i] >= 128
  }

  lemma {:induction false} EncodeSpells(n: nat)
    ensures IsLeb128(EncodeVar(n)) && Spelled(EncodeVar(n)) == n
  {
    if n < 128 {
      assert EncodeVar(n)[1..] == [];
    } else {
      var rest := EncodeVar(n / 128);
      EncodeSpells(n / 128);
      assert EncodeVar(n)[1..] == rest;
      assert |rest| == 1 ==> rest[0] != 0 by {
        if |rest| == 1 { assert Spelled(rest) == rest[0] % 128 + 128 * Spelled(rest[1..]) && rest[1..] == []; }
      }
      assert forall i :: 0 < i < |EncodeVar(n)| ==> EncodeVar(n)[i] == rest[i - 1];
    }
  }

  lemma Leb128Tail(b: bytes)
    requires IsLeb128(b) && |b| > 1
    ensures IsLeb128(b[1..]) && b[1..] != [0] && b[0] >= 128
  {
    var rest := b[1..];
    assert rest[|rest| - 1] == b[|b| - 1];
    assert forall i :: 0 <= i < |rest| - 1 ==> rest[i] == b[i + 1];
  }

  lemma {:induction false} SpelledPositive(b: bytes)
    requires IsLeb128(b) && b != [0]
    ensures Spelled(b) > 0
  {
    if |b| == 1 {
      assert b == [b[0]] && b[1..] == [];
    } else {
      Leb128Tail(b);
      SpelledPositive(b[1..]);
    }
  }

  lemma EncodeStep(low: byte, high: nat)
    requires low < 128 && high > 0
    ensures EncodeVar(low + 128 * high) == [low + 128] + EncodeVar(high)
  {
    assert (low + 128 * high) % 128 == low && (low + 128 * high) / 128 == high;
  }

  lemma {:induction false} SpelledOnce(b: bytes)
    requires IsLeb128(b)
    ensures EncodeVar(Spelled(b)) == b
  {
    if |b| == 1 {
      assert b == [b[0]] && b[1..] == [];
    } else {
      Leb128Tail(b);
      SpelledOnce(b[1..]);
      SpelledPositive(b[1..]);
      EncodeStep(b[0] % 128, Spelled(b[1..]));
      assert b == [b[0]] + b[1..];
    }
  }

  /** A number is encoded as the LEB128 string that spells it, and there is only one. */
  lemma EncodeIsLeb128(n: nat, b: bytes)
    ensures b == EncodeVar(n) <==> IsLeb128(b) && Spelled(b) == n
  {
    EncodeSpells(n);
    if IsLeb128(b) { SpelledOnce(b); }
  }

  /** Decoding reads up to the first byte without the high bit, and fails exactly when there is none. */
  lemma {:induction false} DecodeIs(b: bytes)
    ensures DecodeVar(b) == None <==> forall i :: 0 <= i < |b| ==> b[i] >= 128
    ensures DecodeVar(b).Some? ==>
      var (n, used) := DecodeVar(b).value;
      && 1 <= used <= |b| && b[used - 1] < 128 && (forall i :: 0 <= i < used - 1 ==> b[i] >= 128)
      && n == Spelled(b[..used])
  {
    if b == [] {
    } else if b[0] < 128 {
      assert b[..1][1..] == [] && b[..1][0] == b[0];
    } else {
      var rest := b[1..];
      DecodeIs(rest);
      assert forall i :: 0 <= i < |rest| ==> rest[i] == b[i + 1];
      if DecodeVar(rest).Some? {
        var used := DecodeVar(rest).value.1;
        assert b[..used + 1][1..] == rest[..used] && b[..used + 1][0] == b[0];
      } else {
        forall i | 0 <= i < |b| ensures b[i] >= 128 {
          if i > 0 { assert rest[i - 1] >= 128; }
        }
      }
    }
  }

  /** Zigzag: even numbers stand for the non-negative ones, odd numbers for the negative ones. */
  lemma ZigzagReads(i: int)
    ensures IsLeb128(EncodeSigned(i))
    ensures var n := Spelled(EncodeSigned(i)); i == if n % 2 == 0 then n / 2 else -(n / 2) - 1
  {
    EncodeSpells(if i >= 0 then 2 * i else -2 * i - 1);
  }

  function Pow128(e: nat): nat {
    if e == 0 then 1 else 128 * Pow128(e - 1)
  }

  lemma {:induction false} Pow128Positive(e: nat)
    ensures Pow128(e) >= 1
  {
    if e > 0 { Pow128Positive(e - 1); }
  }

  /** A number takes seven bits to the byte. */
  lemma {:induction false} LengthBound(n: nat, bytes: nat)
    requires bytes > 0
    ensures |EncodeVar(n)| <= bytes <==> n < Pow128(bytes)
  {
    if n < 128 {
      Pow128Positive(bytes - 1);
    } else if bytes == 1 {
      DecodeEncode(n / 128, []);
    } else {
      LengthBound(n / 128, bytes - 1);
    }
  }

  /** `DecodeVar` never claims more bytes than there are. */
  lemma {:induction false} DecodeWithin(b: bytes)
    ensures DecodeVar(b).Some? ==> 1 <= DecodeVar(b).value.1 <= |b|
  {
    if b != [] && b[0] >= 128 {
      DecodeWithin(b[1..]);
    }
  }

  /** Varints are a prefix code: two strings that start with one agree on it and on the rest. */
  lemma VarPrefixFree(a: nat, x: bytes, b: nat, y: bytes)
    requires EncodeVar(a) + x == EncodeVar(b) + y
    ensures a == b && x == y
  {
    DecodeEncode(a, x);
    DecodeEncode(b, y);
  }

  lemma SignedPrefixFree(a: int, x: bytes, b: int, y: bytes)
    requires EncodeSigned(a) + x == EncodeSigned(b) + y
    ensures a == b && x == y
  {
    VarPrefixFree(if a >= 0 then 2 * a else -2 * a - 1, x, if b >= 0 then 2 * b else -2 * b - 1, y);
  }

  /** `encode_bytes`: a length-prefixed byte string. */
  function EncodeBytes(b: bytes): bytes {
    EncodeVar(|b|) + b
  }

  /** What a decoder can do with its input; `Panics` is an out-of-range slice. */
  datatype Decoded<+T> = Done(value: T) | Malformed | Panics

  /** `decode_bytes` */
  function DecodeBytes(b: bytes): (r: Decoded<(bytes, nat)>) {
    match DecodeVar(b)
    case None => Malformed
    case Some((length, used)) =>
      DecodeWithin(b);
      if used + length <= |b| then Done((b[used..used + length], used + length)) else Panics
  }

  lemma SliceFrom(b: bytes, i: nat, n: nat)
    requires i + n <= |b|
    ensures b[i..i + n] == b[i..][..n]
  {
  }

  lemma DecodeBytesTakes(b: bytes)
    ensures DecodeBytes(b).Malformed? <==> DecodeVar(b) == None
    ensures DecodeVar(b).Some? ==>
      var (length, used) := DecodeVar(b).value;
      if |b| < used + length then DecodeBytes(b).Panics?
      else used <= |b| && DecodeBytes(b) == Done((b[used..][..length], used + length))
  {
    DecodeWithin(b);
    if DecodeVar(b).Some? {
      var (length, used) := DecodeVar(b).value;
      if used + length <= |b| { SliceFrom(b, used, length); }
    }
  }

  /** `decode_bytes` fails when the length does not end, panics when there are fewer bytes than it says,
      and otherwise takes exactly that many. */
  lemma DecodeBytesIs(b: bytes)
    ensures DecodeBytes(b).Malformed? <==> forall i :: 0 <= i < |b| ==> b[i] >= 128
    ensures DecodeVar(b).Some? ==>
      var (length, used) := DecodeVar(b).value;
      if |b| < used + length then DecodeBytes(b).Panics?
      else used <= |b| && DecodeBytes(b) == Done((b[used..][..length], used + length))
  {
    DecodeBytesTakes(b);
    DecodeIs(b);
  }

  lemma DecodeEncodeBytes(b: bytes, rest: bytes)
    ensures DecodeBytes(EncodeBytes(b) + rest) == Done((b, |EncodeBytes(b)|))
    ensures (EncodeBytes(b) + rest)[|EncodeBytes(b)|..] == rest
  {
    var e := EncodeBytes(b) + rest;
    assert e == EncodeVar(|b|) + (b + rest);
    DecodeEncode(|b|, b + rest);
    var used := |EncodeVar(|b|)|;
    assert e[used..used + |b|] == b;
    assert |e| >= used + |b|;
  }

  lemma BytesPrefixFree(a: bytes, x: bytes, b: bytes, y: bytes)
    requires EncodeBytes(a) + x == EncodeBytes(b) + y
    ensures a == b && x == y
  {
    DecodeEncodeBytes(a, x);
    DecodeEncodeBytes(b, y);
  }
}
