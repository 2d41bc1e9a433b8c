/** The length prefix of a wire frame (crates/proto/src/lib.rs): seven bits a byte,
    low bits first, the high bit set on all but the last byte. */
module Varint {
  import opened Basics

  const MAX_VARINT_BYTES: nat := 10
  const U64: nat := 0x1_0000_0000_0000_0000

  function Encode(n: nat): (r: seq<byte>)
    ensures |r| > 0
  {
    if n < 128 then [n as byte] else [(n % 128 + 128) as byte] + Encode(n / 128)
  }

  predicate Continues(b: byte) { b >= 128 }

  /** Only the last byte ends the number. */
  predicate Terminated(bytes: seq<byte>) {
    && bytes != [] && !Continues(bytes[|bytes| - 1])
    && forall i :: 0 <= i < |bytes| - 1 ==> Continues(bytes[i])
  }

  function Value(bytes: seq<byte>): nat {
    if bytes == [] then 0 else (bytes[0] % 128) as nat + 128 * Value(bytes[1..])
  }

  /** Accepted prefixes: at most ten bytes, nothing beyond 64 bits, no needless
      zero at the end. */
  predicate Accepted(bytes: seq<byte>) {
    && Terminated(bytes) && |bytes| <= MAX_VARINT_BYTES
    && (|bytes| == MAX_VARINT_BYTES ==> bytes[9] <= 1)
    && (|bytes| > 1 ==> bytes[|bytes| - 1] != 0)
  }

  function Pow128(k: nat): (p: nat)
    ensures p > 0
  {
    if k == 0 then 1 else 128 * Pow128(k - 1)
  }

  // ----- One encoding per number ---------------------------------------------------

  lemma Quotient(n: nat, p: nat)
    requires n < 2 * (128 * p)
    ensures n / 128 < 2 * p
  {
  }

  lemma {:induction false} EncodeLength(n: nat, k: nat)
    requires n < 2 * Pow128(k)
    ensures |Encode(n)| <= k + 1 && (|Encode(n)| == k + 1 ==> Encode(n)[k] <= 1)
  {
    if n >= 128 {
      assert k > 0;
      Quotient(n, Pow128(k - 1));
      EncodeLength(n / 128, k - 1);
    }
  }

  lemma {:induction false} EncodeEnds(n: nat)
    ensures Terminated(Encode(n)) && (n > 0 ==> Encode(n)[|Encode(n)| - 1] != 0)
    ensures |Encode(n)| > 1 ==> n > 0
  {
    if n >= 128 {
      EncodeEnds(n / 128);
      var rest, all := Encode(n / 128), Encode(n);
      assert forall i :: 1 <= i < |all| ==> all[i] == rest[i - 1];
    }
  }

  lemma {:induction false} ValueOfEncode(n: nat)
    ensures Value(Encode(n)) == n
  {
    if n >= 128 {
      ValueOfEncode(n / 128);
      assert Encode(n)[1..] == Encode(n / 128);
    } else {
      assert Encode(n)[1..] == [];
    }
  }

  lemma {:induction false} EncodeOfValue(bytes: seq<byte>)
    requires Terminated(bytes) && (|bytes| > 1 ==> bytes[|bytes| - 1] != 0)
    ensures Encode(Value(bytes)) == bytes
    ensures bytes[|bytes| - 1] != 0 ==> Value(bytes) > 0
  {
    var rest := bytes[1..];
    if |bytes| == 1 {
      assert rest == [];
    } else {
      assert Terminated(rest) && rest[|rest| - 1] == bytes[|bytes| - 1];
      EncodeOfValue(rest);
      var n := Value(bytes);
      assert n % 128 == (bytes[0] % 128) as nat && n / 128 == Value(rest);
      assert bytes == [bytes[0]] + rest;
    }
  }

  lemma {:induction false} ValueBound(bytes: seq<byte>, k: nat)
    requires |bytes| <= k + 1 && (|bytes| == k + 1 ==> bytes[k] <= 1)
    ensures Value(bytes) < 2 * Pow128(k)
  {
    if bytes != [] {
      if k > 0 { ValueBound(bytes[1..], k - 1); } else { assert bytes[1..] == []; }
    }
  }

  lemma SixtyFourBits()
    ensures 2 * Pow128(9) == U64
  {
    assert Pow128(3) == 128 * 128 * 128;
    assert Pow128(6) == 128 * 128 * 128 * Pow128(3);
    assert Pow128(9) == 128 * 128 * 128 * Pow128(6);
  }

  /** Accepted prefixes and 64-bit numbers correspond one to one. */
  lemma OneEncoding(n: nat, bytes: seq<byte>)
    requires n < U64
    ensures Accepted(Encode(n)) && Value(Encode(n)) == n
    ensures Accepted(bytes) ==> Value(bytes) < U64 && Encode(Value(bytes)) == bytes
  {
    SixtyFourBits();
    EncodeLength(n, 9);
    EncodeEnds(n);
    ValueOfEncode(n);
    if Accepted(bytes) {
      ValueBound(bytes, 9);
      EncodeOfValue(bytes);
    }
  }

  // ----- The loops -----------------------------------------------------------------

  method EncodeVarint(value: nat) returns (output: seq<byte>)
    requires value < U64
    ensures output == Encode(value)
  {
    output := [];
    var rest := value;
    while true
      invariant output + Encode(rest) == Encode(value)
      decreases rest
    {
      var low := rest % 128;
      if rest / 128 == 0 {
        return output + [low as byte];
      }
      assert output + [(low + 128) as byte] + Encode(rest / 128) == output + Encode(rest);
      output := output + [(low + 128) as byte];
      rest := rest / 128;
    }
  }

  lemma {:induction false} ValueAppend(bytes: seq<byte>, b: byte)
    ensures Value(bytes + [b]) == Value(bytes) + (b % 128) as nat * Pow128(|bytes|)
  {
    if bytes == [] {
      assert bytes + [b] == [b] && [b][1..] == [];
    } else {
      assert (bytes + [b])[1..] == bytes[1..] + [b];
      ValueAppend(bytes[1..], b);
    }
  }

  /** Reads a number from bytes that may continue past it or stop short of its end:
      it is there exactly when some front part is an accepted prefix. */
  method DecodeVarint(bytes: seq<byte>) returns (r: Option<nat>)
    ensures r.Some? ==> exists k :: 0 < k <= |bytes| && Accepted(bytes[..k]) && r.value == Value(bytes[..k])
    ensures r.None? ==> forall k :: 0 < k <= |bytes| ==> !Accepted(bytes[..k])
  {
    var value := 0;
    var power := 1;
    for index := 0 to |bytes|
      invariant index <= 9
      invariant value == Value(bytes[..index]) && power == Pow128(index)
      invariant forall i :: 0 <= i < index ==> Continues(bytes[i])
    {
      var b := bytes[index];
      if index == 9 && b > 1 {
        forall k | 0 < k <= |bytes| ensures !Accepted(bytes[..k]) { NotYet(bytes, index, k); }
        return None;
      }
      assert bytes[..index] + [b] == bytes[..index + 1];
      ValueAppend(bytes[..index], b);
      value := value + (b % 128) as nat * power;
      power := power * 128;
      if !Continues(b) {
        if index > 0 && b == 0 {
          forall k | 0 < k <= |bytes| ensures !Accepted(bytes[..k]) { NotYet(bytes, index, k); }
          return None;
        }
        assert Accepted(bytes[..index + 1]);
        return Some(value);
      }
    }
    forall k | 0 < k <= |bytes| ensures !Accepted(bytes[..k]) { assert Continues(bytes[..k][k - 1]); }
    r := None;
  }

  /** If the first byte that could end the number does not do so acceptably, no
      other can. */
  lemma NotYet(bytes: seq<byte>, index: nat, k: nat)
    requires index < |bytes| && index <= 9 && 0 < k <= |bytes|
    requires forall i :: 0 <= i < index ==> Continues(bytes[i])
    requires (index == 9 && bytes[9] > 1) || (index > 0 && bytes[index] == 0)
    ensures !Accepted(bytes[..k])
  {
    var front := bytes[..k];
    assert front[k - 1] == bytes[k - 1];
    if index < k - 1 { assert front[index] == bytes[index]; }
  }
}
