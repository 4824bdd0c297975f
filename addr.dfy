/**
 * IP addresses as Go's `net` package represents them: a byte slice that is
 * 4 bytes long for an IPv4 address and 16 bytes long for an IPv6 address,
 * an IPv4 address possibly being stored in its IPv4-mapped IPv6 form
 * (::ffff:a.b.c.d, section 2.5.5.2 of RFC 4291).
 */
module Addr {
  import opened Wrappers

  newtype byte = b: int | 0 <= b < 256

  /** `net.IP` */
  type IP = seq<byte>

  /** The 12-byte prefix of an IPv4-mapped IPv6 address: ten zero bytes, then 0xff 0xff. */
  const V4InV6Prefix: seq<byte> := [0, 0, 0, 0, 0, 0, 0, 0, 0, 0, 0xff, 0xff]

  /** The IPv4-mapped IPv6 form of a 4-byte address (what `net.IPv4` builds). */
  function Mapped(v4: IP): (ip: IP)
    requires |v4| == 4
    ensures |ip| == 16 && ip[12..] == v4
  {
    V4InV6Prefix + v4
  }

  /**
   * `IP.To4`: the 4-byte form of an address if it has one, i.e. if it is a
   * 4-byte address or an IPv4-mapped 16-byte address; `None` for anything
   * else (a genuine IPv6 address, a slice of another length).
   */
  function To4(ip: IP): (r: Option<IP>)
    ensures r.Some? ==> |r.value| == 4 && (ip == r.value || ip == Mapped(r.value))
    ensures r.None? <==> |ip| != 4 && (|ip| != 16 || ip[..12] != V4InV6Prefix)
  {
    if |ip| == 4 then Some(ip)
    else if |ip| == 16 && ip[..10] == [0, 0, 0, 0, 0, 0, 0, 0, 0, 0] && ip[10] == 0xff && ip[11] == 0xff then
      assert ip == ip[..12] + ip[12..];
      Some(ip[12..])
    else None
  }

  /** Both storage forms of an IPv4 address give back the same four bytes. */
  lemma To4OfIPv4Forms(v4: IP)
    requires |v4| == 4
    ensures To4(v4) == Some(v4)
    ensures To4(Mapped(v4)) == Some(v4)
  {
    assert Mapped(v4)[..12] == V4InV6Prefix;
  }

  // ----- dotted-decimal rendering (`IP.String` of a 4-byte address) -----

  predicate IsDigit(c: char) { '0' <= c <= '9' }

  predicate AllDigits(s: string) { forall i :: 0 <= i < |s| ==> IsDigit(s[i]) }

  function DigitChar(d: nat): (c: char)
    requires d < 10
    ensures IsDigit(c) && c as int - '0' as int == d
  {
    ('0' as int + d) as char
  }

  /** Decimal digits of `n`, without leading zeros. */
  function Decimal(n: nat): (s: string)
    ensures |s| >= 1 && AllDigits(s)
    ensures s[0] == '0' ==> n == 0
    ensures n < 10 ==> |s| == 1
    ensures n < 100 ==> |s| <= 2
    ensures n < 1000 ==> |s| <= 3
  {
    if n < 10 then [DigitChar(n)] else Decimal(n / 10) + [DigitChar(n % 10)]
  }

  /** The number a string of decimal digits denotes. */
  function DecimalValue(s: string): (v: nat)
    requires AllDigits(s)
  {
    if s == [] then 0 else DecimalValue(s[..|s| - 1]) * 10 + (s[|s| - 1] as int - '0' as int)
  }

  /** Reading back the digits of `n` gives `n`. */
  lemma {:induction false} DecimalRoundTrip(n: nat)
    ensures DecimalValue(Decimal(n)) == n
  {
    if n >= 10 {
      var s := Decimal(n);
      assert s[..|s| - 1] == Decimal(n / 10);
      DecimalRoundTrip(n / 10);
    }
  }

  /** One byte of a dotted-decimal address. */
  function Octet(b: byte): (s: string)
    ensures 1 <= |s| <= 3 && AllDigits(s)
    ensures s[0] == '0' ==> s == "0"
  {
    Decimal(b as nat)
  }

  lemma OctetInjective(a: byte, b: byte)
    requires Octet(a) == Octet(b)
    ensures a == b
  {
    DecimalRoundTrip(a as nat);
    DecimalRoundTrip(b as nat);
  }

  /** `IP.String` of a 4-byte address: "a.b.c.d" in decimal. */
  function Render(v4: IP): (s: string)
    requires |v4| == 4
    ensures 7 <= |s| <= 15
    ensures forall i :: 0 <= i < |s| ==> IsDigit(s[i]) || s[i] == '.'
    ensures s[..|Octet(v4[0])|] == Octet(v4[0]) && s[|Octet(v4[0])|] == '.' 
  {
    Octet(v4[0]) + "." + (Octet(v4[1]) + "." + (Octet(v4[2]) + "." + Octet(v4[3])))
  }

  /** The rendering of the unspecified address 0.0.0.0. */
  const Unspecified: string := "0.0.0.0"

  /** A string of digits followed by a dot can be split at that dot in one way only. */
  lemma SplitAtFirstDot(x: string, y: string, x': string, y': string)
    requires AllDigits(x) && AllDigits(x')
    requires x + "." + y == x' + "." + y'
    ensures x == x' && y == y'
  {
    var s := x + "." + y;
    assert s[|x|] == '.' && s[|x'|] == '.';
    if |x| < |x'| {
      assert false;
    }
    if |x'| < |x| {
      assert false;
    }
    assert x == s[..|x|] == x';
    assert y == s[|x| + 1..] == y';
  }

  /** Distinct 4-byte addresses render to distinct strings. */
  lemma RenderInjective(v: IP, w: IP)
    requires |v| == 4 && |w| == 4
    requires Render(v) == Render(w)
    ensures v == w
  {
    var r2, q2 := Octet(v[2]) + "." + Octet(v[3]), Octet(w[2]) + "." + Octet(w[3]);
    var r1, q1 := Octet(v[1]) + "." + r2, Octet(w[1]) + "." + q2;
    SplitAtFirstDot(Octet(v[0]), r1, Octet(w[0]), q1);
    SplitAtFirstDot(Octet(v[1]), r2, Octet(w[1]), q2);
    SplitAtFirstDot(Octet(v[2]), Octet(v[3]), Octet(w[2]), Octet(w[3]));
    OctetInjective(v[0], w[0]);
    OctetInjective(v[1], w[1]);
    OctetInjective(v[2], w[2]);
    OctetInjective(v[3], w[3]);
  }

  /** A 4-byte address renders as "0.0.0.0" exactly when it is the unspecified address. */
  lemma RenderUnspecified(v4: IP)
    requires |v4| == 4
    ensures Render(v4) == Unspecified <==> v4 == [0, 0, 0, 0]
  {
    assert Render([0, 0, 0, 0]) == Unspecified;
    if Render(v4) == Unspecified {
      RenderInjective(v4, [0, 0, 0, 0]);
    }
  }
}
