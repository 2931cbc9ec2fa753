/**
 * The IPv4 text conversions the ipv4_address codec calls: inet_aton (as
 * glibc implements it) and inet_ntoa. An address is a struct in_addr, held
 * as its four bytes in memory (network) order.
 */
module Inet {
  import opened Wrappers
  import opened ConfPrivate
  import opened CNum

  /** Four bytes. */
  predicate IsQuad(q: seq<int>) {
    |q| == 4 && forall i :: 0 <= i < 4 ==> 0 <= q[i] < 256
  }

  /** inet_ntoa: the bytes in memory order, in decimal, joined by dots. */
  function Ntoa(q: seq<int>): (r: string)
    requires IsQuad(q)
  {
    Decimal(q[0]) + ("." + (Decimal(q[1]) + ("." + (Decimal(q[2]) + ("." + Decimal(q[3]))))))
  }

  /** The n bytes of v, most significant first (htonl order). */
  function Bytes(v: nat, n: nat): (r: seq<int>)
    ensures |r| == n && forall i :: 0 <= i < n ==> 0 <= r[i] < 256
  {
    if n == 0 then [] else Bytes(v / 256, n - 1) + [v % 256]
  }

  /**
   * The address made of the parts before the last dot (each one byte) and
   * the last part, which fills the remaining bytes; None when the last part
   * does not fit in them.
   */
  function Assemble(parts: seq<nat>, last: nat): (r: Option<seq<int>>)
    requires |parts| <= 3 && forall i :: 0 <= i < |parts| ==> parts[i] < 256
    ensures r.Some? ==> IsQuad(r.value) && r.value[..|parts|] == parts
  {
    var room := if |parts| == 0 then 0x1_0000_0000
      else if |parts| == 1 then 0x100_0000
      else if |parts| == 2 then 0x1_0000
      else 0x100;
    if last >= room then None
    else
      var r := parts + Bytes(last, 4 - |parts|);
      assert r[..|parts|] == parts;
      Some(r)
  }

  /**
   * inet_aton on the text u that is left, with the parts read so far: each
   * part must start with a digit and is read as strtoul reads it in base 0
   * (hex after "0x", octal after "0"); a dot after a part asks for another
   * part (at most four, each but the last at most 255); the text may end
   * after the last part or continue with white space.
   */
  function AtonFrom(u: string, parts: seq<nat>): (r: Option<seq<int>>)
    requires |parts| <= 3 && forall k :: 0 <= k < |parts| ==> parts[k] < 256
    ensures r.Some? ==> IsQuad(r.value)
    decreases |u|
  {
    if |u| == 0 || !IsDigit(u[0]) then None
    else
      var value := Magnitude(u);
      var j := MagnitudeLength(u);
      var c := if j < |u| then u[j] else '\0';
      if c == '.' then
        if |parts| == 3 || value > 255 then None
        else AtonFrom(u[j + 1..], parts + [value])
      else if c != '\0' && !IsSpace(c) then None
      else Assemble(parts, value)
  }

  /** inet_aton: the address the text denotes, or None when inet_aton returns 0. */
  function InetAton(s: string): (r: Option<seq<int>>)
    ensures r.Some? ==> IsQuad(r.value)
  {
    AtonFrom(s, [])
  }

  /** The last part of canonical dotted text completes the address. */
  lemma AtonLastPart(parts: seq<nat>, n: nat)
    requires |parts| <= 3 && forall k :: 0 <= k < |parts| ==> parts[k] < 256
    ensures AtonFrom(Numeral(n, 10, 1), parts) == Assemble(parts, n)
  {
    MagnitudeOfNumeral(n);
    MagnitudeOfNumeralThen(n, []);
    assert Numeral(n, 10, 1) + [] == Numeral(n, 10, 1);
  }

  /** A part of canonical dotted text followed by a dot: its value joins the parts. */
  lemma AtonInnerPart(parts: seq<nat>, n: nat, rest: string)
    requires |parts| < 3 && forall k :: 0 <= k < |parts| ==> parts[k] < 256
    requires n <= 255
    ensures AtonFrom(Numeral(n, 10, 1) + ("." + rest), parts) == AtonFrom(rest, parts + [n])
  {
    var d := Numeral(n, 10, 1);
    MagnitudeOfNumeralThen(n, "." + rest);
    AtonDot(d, rest, parts, n);
  }

  /** A part d that a dot follows, read while there is room for another part. */
  lemma AtonDot(d: string, rest: string, parts: seq<nat>, n: nat)
    requires |parts| < 3 && forall k :: 0 <= k < |parts| ==> parts[k] < 256
    requires |d| > 0 && IsDigit(d[0]) && n <= 255
    requires Magnitude(d + ("." + rest)) == n && MagnitudeLength(d + ("." + rest)) == |d|
    ensures AtonFrom(d + ("." + rest), parts) == AtonFrom(rest, parts + [n])
  {
    var u := d + ("." + rest);
    assert u[0] == d[0];
    assert u[|d|] == '.';
    assert u[|d| + 1..] == rest;
  }

  /** inet_ntoa's text, part by part: each byte's decimal digits, joined by dots. */
  lemma NtoaParts(q: seq<int>)
    requires IsQuad(q)
    ensures Ntoa(q) == Numeral(q[0], 10, 1) + ("." + (Numeral(q[1], 10, 1) + ("." + (Numeral(q[2], 10, 1) + ("." + Numeral(q[3], 10, 1))))))
  {
  }

  /** Three bytes read and a fourth as the last part make the address. */
  lemma AssembleQuad(q: seq<int>)
    requires IsQuad(q)
    ensures Assemble([q[0], q[1], q[2]], q[3]) == Some(q)
  {
    assert Bytes(q[3], 1) == [q[3]];
    assert [q[0], q[1], q[2]] + [q[3]] == q;
  }

  /** inet_aton reads back the text inet_ntoa writes. */
  lemma AtonOfNtoa(q: seq<int>)
    requires IsQuad(q)
    ensures InetAton(Ntoa(q)) == Some(q)
  {
    var d0, d1, d2, d3 := Numeral(q[0], 10, 1), Numeral(q[1], 10, 1), Numeral(q[2], 10, 1), Numeral(q[3], 10, 1);
    var p1: seq<nat> := [q[0]];
    var p2: seq<nat> := [q[0], q[1]];
    var p3: seq<nat> := [q[0], q[1], q[2]];
    var r1 := d2 + ("." + d3);
    var r0 := d1 + ("." + r1);
    NtoaParts(q);
    AtonInnerPart([], q[0], r0);
    assert [] + [q[0]] == p1;
    AtonInnerPart(p1, q[1], r1);
    assert p1 + [q[1]] == p2;
    AtonInnerPart(p2, q[2], d3);
    assert p2 + [q[2]] == p3;
    AtonLastPart(p3, q[3]);
    AssembleQuad(q);
  }
}
