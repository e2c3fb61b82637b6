/** Oracle addresses as 0x-hex strings, compared as integers or as lower-cased strings. */
module Addresses {

  predicate IsHexDigit(c: char) {
    '0' <= c <= '9' || 'a' <= c <= 'f' || 'A' <= c <= 'F'
  }

  ghost predicate IsHex(s: string) {
    forall k :: 0 <= k < |s| ==> IsHexDigit(s[k])
  }

  /** A 20-byte address: 0x and 40 hex digits of either case. */
  ghost predicate IsAddress(s: string) {
    |s| == 42 && s[..2] == "0x" && IsHex(s[2..])
  }

  function DigitValue(c: char): nat {
    if '0' <= c <= '9' then (c - '0') as nat
    else if 'a' <= c <= 'f' then (c - 'a') as nat + 10
    else if 'A' <= c <= 'F' then (c - 'A') as nat + 10
    else 0
  }

  function Pow16(n: nat): nat {
    if n == 0 then 1 else 16 * Pow16(n - 1)
  }

  function HexValue(s: string): nat {
    if s == [] then 0 else DigitValue(s[0]) * Pow16(|s| - 1) + HexValue(s[1..])
  }

  /** Web3.to_int of a 0x-hex string. */
  function ToInt(s: string): nat {
    if |s| < 2 then 0 else HexValue(s[2..])
  }

  function LowerChar(c: char): char {
    if 'A' <= c <= 'Z' then c - 'A' + 'a' else c
  }

  function Lower(s: string): (r: string)
    ensures |r| == |s|
  {
    seq(|s|, k requires 0 <= k < |s| => LowerChar(s[k]))
  }

  /** The order of strings by code points. */
  predicate StringLe(a: string, b: string) {
    if a == [] then true
    else if b == [] then false
    else if a[0] != b[0] then a[0] < b[0]
    else StringLe(a[1..], b[1..])
  }

  lemma {:induction false} HexBound(s: string)
    requires IsHex(s)
    ensures HexValue(s) < Pow16(|s|)
  {
    if s != [] {
      HexBound(s[1..]);
      assert IsHexDigit(s[0]);
      LeadingDigit(DigitValue(s[0]), 16, Pow16(|s| - 1), HexValue(s[1..]), 0);
    }
  }

  lemma DigitOrder(c: char, d: char)
    requires IsHexDigit(c) && IsHexDigit(d)
    ensures LowerChar(c) == LowerChar(d) <==> DigitValue(c) == DigitValue(d)
    ensures LowerChar(c) < LowerChar(d) <==> DigitValue(c) < DigitValue(d)
  {
  }

  /** On hex strings of one length, the order of the lower-cased strings is the order of the values. */
  lemma {:induction false} HexOrder(a: string, b: string)
    requires IsHex(a) && IsHex(b) && |a| == |b|
    ensures StringLe(Lower(a), Lower(b)) <==> HexValue(a) <= HexValue(b)
  {
    if a != [] {
      assert IsHexDigit(a[0]) && IsHexDigit(b[0]);
      DigitOrder(a[0], b[0]);
      HexOrder(a[1..], b[1..]);
      HexBound(a[1..]);
      HexBound(b[1..]);
      assert Lower(a)[1..] == Lower(a[1..]) && Lower(b)[1..] == Lower(b[1..]);
      LeadingDigit(DigitValue(a[0]), DigitValue(b[0]), Pow16(|a| - 1), HexValue(a[1..]), HexValue(b[1..]));
    }
  }

  lemma LeadingDigit(d: nat, e: nat, p: nat, x: nat, y: nat)
    requires x < p && y < p
    ensures d < e ==> d * p + x < e * p + y
    ensures e < d ==> e * p + y < d * p + x
  {
    if d < e {
      assert (d + 1) * p <= e * p;
    } else if e < d {
      assert (e + 1) * p <= d * p;
    }
  }

  /** Sorting by lower-cased address and sorting by address as an integer use the same order. */
  lemma AddressOrder(a: string, b: string)
    requires IsAddress(a) && IsAddress(b)
    ensures StringLe(Lower(a), Lower(b)) <==> ToInt(a) <= ToInt(b)
  {
    HexOrder(a[2..], b[2..]);
    var x, y := Lower(a), Lower(b);
    assert a[0] == a[..2][0] && a[1] == a[..2][1] && b[0] == b[..2][0] && b[1] == b[..2][1];
    assert x[1..][1..] == Lower(a[2..]) && y[1..][1..] == Lower(b[2..]);
    assert StringLe(x, y) == StringLe(x[1..], y[1..]) == StringLe(x[1..][1..], y[1..][1..]);
  }
}
