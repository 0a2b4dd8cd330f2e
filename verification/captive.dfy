/** The captive-portal helpers: `isIp`, the test of whether a `Host` header is already a
    literal address, and `toStringIP`, the dotted-decimal rendering of the station's own
    address that the redirect points at. `ParseIp` is the inverse of the rendering, used
    to state what the rendering means. */
module Captive {
  import opened Wrappers
  import opened Machine

  /** The characters `isIp` lets through: a dot or an ASCII digit. */
  predicate IpChar(c: char)
  {
    c == '.' || '0' <= c <= '9'
  }

  /** `isIp`: scans the string and rejects it at the first character that is neither a
      dot nor a digit. */
  function IsIp(s: string): (r: bool)
    ensures r <==> forall i :: 0 <= i < |s| ==> IpChar(s[i])
    decreases |s|
  {
    if s == [] then true
    else if !IpChar(s[0]) then false
    else IsIp(s[1..])
  }

  /** `isIp` is a character-class test, not an address parser: the empty string, a bare
      run of dots and out-of-range numbers all pass. */
  lemma IsIpAcceptsNonAddresses()
    ensures IsIp("") && IsIp("...") && IsIp("999.1")
    ensures ParseIp("").None? && ParseIp("...").None? && ParseIp("999.1").None?
  {
    assert SplitDots("") == [""];
    assert "999.1" == "999" + "." + "1";
    SplitAtDot("999", "1");
    SplitNoDot("1");
  }

  // ---------------------------------------------------------------- decimals

  function DigitChar(d: nat): (c: char)
    requires d < 10
    ensures '0' <= c <= '9' && c as int - '0' as int == d
  {
    ('0' as int + d) as char
  }

  function DigitValue(c: char): (d: nat)
    requires '0' <= c <= '9'
    ensures d < 10 && DigitChar(d) == c
  {
    (c as int - '0' as int) as nat
  }

  predicate IsDigits(s: string)
  {
    forall i :: 0 <= i < |s| ==> '0' <= s[i] <= '9'
  }

  /** Arduino's `String(unsigned)`: the base-ten digits of `n`, most significant first,
      without leading zeros. */
  function Decimal(n: nat): (s: string)
    ensures 1 <= |s| && IsDigits(s)
    ensures |s| > 1 ==> s[0] != '0'
    ensures n < 10 <==> |s| == 1
    decreases n
  {
    if n < 10 then [DigitChar(n)] else Decimal(n / 10) + [DigitChar(n % 10)]
  }

  /** The value of a string of digits, most significant first. */
  function ParseDecimal(s: string): nat
    requires IsDigits(s)
    decreases |s|
  {
    if s == [] then 0 else ParseDecimal(s[..|s| - 1]) * 10 + DigitValue(s[|s| - 1])
  }

  /** Reading back the digits of `n` gives `n`. */
  lemma {:induction false} DecimalRoundTrip(n: nat)
    ensures ParseDecimal(Decimal(n)) == n
    decreases n
  {
    var s := Decimal(n);
    if n < 10 {
      assert s[..0] == [];
    } else {
      DecimalRoundTrip(n / 10);
      assert s[..|s| - 1] == Decimal(n / 10);
      assert DigitValue(s[|s| - 1]) == n % 10;
    }
  }

  /** An octet is written with at most three digits. */
  lemma DecimalOfOctet(n: nat)
    requires n < 256
    ensures |Decimal(n)| <= 3
  {
    if n >= 10 {
      assert n / 10 < 100;
      if n / 10 >= 10 {
        assert n / 10 / 10 < 10;
      }
    }
  }

  // ---------------------------------------------------------------- octets

  /** `ip >> (8 * i)` on the unsigned 32-bit address. */
  function Shift(ip: U32, i: nat): (r: U32)
    ensures r <= ip
  {
    if i == 0 then ip else Shift(ip, i - 1) / 256
  }

  /** `(ip >> (8 * i)) & 0xFF`: octet `i`, counting from the least significant. */
  function Octet(ip: U32, i: nat): (r: nat)
    ensures r < 256
  {
    Shift(ip, i) % 256
  }

  /** The four octets determine the address. */
  lemma OctetsRebuild(ip: U32)
    ensures ip == Rebuild(Octet(ip, 0), Octet(ip, 1), Octet(ip, 2), Octet(ip, 3))
  {
    var s1, s2, s3 := Shift(ip, 1), Shift(ip, 2), Shift(ip, 3);
    assert Shift(ip, 0) == ip;
    ByteSplit(ip);
    ByteSplit(s1);
    ByteSplit(s2);
    assert s3 < 256 by {
      assert s1 < 16777216;
      assert s2 < 65536;
    }
    Regroup(ip % 256, s1 % 256, s2 % 256, s3);
  }

  /** One byte off the bottom of `x`. */
  lemma ByteSplit(x: nat)
    ensures x == x % 256 + 256 * (x / 256)
  {
  }

  lemma Regroup(a: nat, b: nat, c: nat, d: nat)
    ensures a + 256 * (b + 256 * (c + 256 * d)) == a + 256 * b + 65536 * c + 16777216 * d
  {
  }

  /** The first `i` octets, each followed by a dot. */
  function DottedPrefix(ip: U32, i: nat): string
    requires i <= 3
  {
    if i == 0 then "" else DottedPrefix(ip, i - 1) + Decimal(Octet(ip, i - 1)) + "."
  }

  /** The address `toStringIP` builds: octet 0 first, each followed by a dot except the
      last. */
  function FormatIp(ip: U32): string
  {
    Decimal(Octet(ip, 0)) + "." + Decimal(Octet(ip, 1)) + "." + Decimal(Octet(ip, 2)) + "." + Decimal(Octet(ip, 3))
  }

  /** `toStringIP`: three rounds of appending an octet and a dot, then the last octet.
      The result passes `isIp`, reads back as the same address, and is seven to fifteen
      characters long. */
  method ToStringIP(ip: U32) returns (res: string)
    ensures res == FormatIp(ip)
    ensures IsIp(res) && ParseIp(res) == Some(ip)
    ensures 7 <= |res| <= 15
  {
    res := "";
    var i := 0;
    while i < 3
      invariant 0 <= i <= 3
      invariant res == DottedPrefix(ip, i)
    {
      res := res + Decimal(Octet(ip, i)) + ".";
      i := i + 1;
    }
    assert DottedPrefix(ip, 1) == Decimal(Octet(ip, 0)) + ".";
    assert DottedPrefix(ip, 2) == Decimal(Octet(ip, 0)) + "." + Decimal(Octet(ip, 1)) + ".";
    assert res == Decimal(Octet(ip, 0)) + "." + Decimal(Octet(ip, 1)) + "." + Decimal(Octet(ip, 2)) + ".";
    res := res + Decimal(Octet(ip, 3));
    FormatIpRoundTrip(ip);
    FormatIpLength(ip);
  }

  lemma FormatIpLength(ip: U32)
    ensures 7 <= |FormatIp(ip)| <= 15
  {
    DecimalOfOctet(Octet(ip, 0));
    DecimalOfOctet(Octet(ip, 1));
    DecimalOfOctet(Octet(ip, 2));
    DecimalOfOctet(Octet(ip, 3));
  }

  // ---------------------------------------------------------------- the inverse

  /** The pieces of `s` between dots, in order; a string without dots is one piece. */
  function SplitDots(s: string): (parts: seq<string>)
    ensures |parts| >= 1
    decreases |s|
  {
    if s == [] then [""]
    else
      var rest := SplitDots(s[1..]);
      if s[0] == '.' then [""] + rest
      else [[s[0]] + rest[0]] + rest[1..]
  }

  predicate NoDot(s: string)
  {
    forall i :: 0 <= i < |s| ==> s[i] != '.'
  }

  lemma {:induction false} SplitNoDot(d: string)
    requires NoDot(d)
    ensures SplitDots(d) == [d]
    decreases |d|
  {
    if d != [] {
      SplitNoDot(d[1..]);
      assert [d[0]] + d[1..] == d;
    }
  }

  lemma {:induction false} SplitAtDot(d: string, rest: string)
    requires NoDot(d)
    ensures SplitDots(d + "." + rest) == [d] + SplitDots(rest)
    decreases |d|
  {
    if d == [] {
      assert d + "." + rest == ['.'] + rest;
      assert (['.'] + rest)[1..] == rest;
    } else {
      var s := d + "." + rest;
      assert s[0] == d[0];
      assert s[1..] == d[1..] + "." + rest;
      SplitAtDot(d[1..], rest);
      assert [d[0]] + d[1..] == d;
    }
  }

  /** A piece is an octet when it is one to three digits worth less than 256, with no
      leading zero unless it is the single digit `0`. */
  predicate OctetText(s: string)
  {
    1 <= |s| <= 3 && IsDigits(s) && (|s| == 1 || s[0] != '0') && ParseDecimal(s) < 256
  }

  /** Strict dotted-decimal parsing: four dot-separated octets, octet 0 first. */
  function ParseIp(s: string): Option<U32>
  {
    ParseOctets(SplitDots(s))
  }

  /** Four octet texts, octet 0 first, or nothing. */
  function ParseOctets(parts: seq<string>): Option<U32>
  {
    if |parts| == 4 && OctetText(parts[0]) && OctetText(parts[1]) && OctetText(parts[2]) && OctetText(parts[3])
    then Some(Rebuild(ParseDecimal(parts[0]), ParseDecimal(parts[1]), ParseDecimal(parts[2]), ParseDecimal(parts[3])))
    else None
  }

  /** The address with octets `o0` (least significant) to `o3`. */
  function Rebuild(o0: nat, o1: nat, o2: nat, o3: nat): U32
    requires o0 < 256 && o1 < 256 && o2 < 256 && o3 < 256
  {
    o0 + 256 * o1 + 65536 * o2 + 16777216 * o3
  }

  lemma DigitsHaveNoDot(s: string)
    requires IsDigits(s)
    ensures NoDot(s)
  {
  }

  /** The rendering splits at its dots into the four octets' digits. */
  lemma FormatIpPieces(ip: U32)
    ensures SplitDots(FormatIp(ip)) == [Decimal(Octet(ip, 0)), Decimal(Octet(ip, 1)), Decimal(Octet(ip, 2)), Decimal(Octet(ip, 3))]
  {
    var d0, d1, d2, d3 := Decimal(Octet(ip, 0)), Decimal(Octet(ip, 1)), Decimal(Octet(ip, 2)), Decimal(Octet(ip, 3));
    assert FormatIp(ip) == d0 + "." + (d1 + "." + (d2 + "." + d3));
    DigitsHaveNoDot(d0); DigitsHaveNoDot(d1); DigitsHaveNoDot(d2); DigitsHaveNoDot(d3);
    SplitAtDot(d0, d1 + "." + (d2 + "." + d3));
    SplitAtDot(d1, d2 + "." + d3);
    SplitAtDot(d2, d3);
    SplitNoDot(d3);
  }

  /** The digits of an octet form valid octet text worth that octet. */
  lemma OctetTextOf(n: nat)
    requires n < 256
    ensures OctetText(Decimal(n)) && ParseDecimal(Decimal(n)) == n
  {
    DecimalRoundTrip(n);
    DecimalOfOctet(n);
  }

  /** A concatenation passes `isIp` exactly when both halves do. */
  lemma IsIpConcat(a: string, b: string)
    ensures IsIp(a + b) <==> IsIp(a) && IsIp(b)
  {
    if IsIp(a) && IsIp(b) {
      forall i | 0 <= i < |a + b| ensures IpChar((a + b)[i]) {
        if i >= |a| { assert (a + b)[i] == b[i - |a|]; }
      }
    }
    if IsIp(a + b) {
      forall i | 0 <= i < |a| ensures IpChar(a[i]) {
        assert (a + b)[i] == a[i];
      }
      forall i | 0 <= i < |b| ensures IpChar(b[i]) {
        assert (a + b)[|a| + i] == b[i];
      }
    }
  }

  /** The rendered address passes `isIp`. */
  lemma FormatIpIsIp(ip: U32)
    ensures IsIp(FormatIp(ip))
  {
    var d0, d1, d2, d3 := Decimal(Octet(ip, 0)), Decimal(Octet(ip, 1)), Decimal(Octet(ip, 2)), Decimal(Octet(ip, 3));
    IsIpConcat(d0, ".");
    IsIpConcat(d0 + ".", d1);
    IsIpConcat(d0 + "." + d1, ".");
    IsIpConcat(d0 + "." + d1 + ".", d2);
    IsIpConcat(d0 + "." + d1 + "." + d2, ".");
    IsIpConcat(d0 + "." + d1 + "." + d2 + ".", d3);
  }

  /** Four octet texts separated by dots parse to the address they spell. */
  lemma ParseIpOfPieces(s: string, p0: string, p1: string, p2: string, p3: string)
    requires SplitDots(s) == [p0, p1, p2, p3]
    requires OctetText(p0) && OctetText(p1) && OctetText(p2) && OctetText(p3)
    ensures ParseIp(s) == Some(Rebuild(ParseDecimal(p0), ParseDecimal(p1), ParseDecimal(p2), ParseDecimal(p3)))
  {
    var parts := [p0, p1, p2, p3];
    assert parts[0] == p0 && parts[1] == p1 && parts[2] == p2 && parts[3] == p3;
    assert ParseOctets(parts) == Some(Rebuild(ParseDecimal(p0), ParseDecimal(p1), ParseDecimal(p2), ParseDecimal(p3)));
  }

  /** The rendered address passes `isIp` and parses back to the same address. */
  lemma FormatIpRoundTrip(ip: U32)
    ensures IsIp(FormatIp(ip))
    ensures ParseIp(FormatIp(ip)) == Some(ip)
  {
    FormatIpIsIp(ip);
    FormatIpPieces(ip);
    var o0, o1, o2, o3 := Octet(ip, 0), Octet(ip, 1), Octet(ip, 2), Octet(ip, 3);
    OctetTextOf(o0);
    OctetTextOf(o1);
    OctetTextOf(o2);
    OctetTextOf(o3);
    ParseIpOfPieces(FormatIp(ip), Decimal(o0), Decimal(o1), Decimal(o2), Decimal(o3));
    OctetsRebuild(ip);
  }

  // ---------------------------------------------------------------- canonical form

  /** The pieces joined back with dots. */
  function JoinDots(parts: seq<string>): string
    requires |parts| >= 1
    decreases |parts|
  {
    if |parts| == 1 then parts[0] else parts[0] + "." + JoinDots(parts[1..])
  }

  /** Splitting at the dots and joining again gives the string back. */
  lemma {:induction false} JoinSplitDots(s: string)
    ensures JoinDots(SplitDots(s)) == s
    decreases |s|
  {
    if s != [] {
      var rest := SplitDots(s[1..]);
      JoinSplitDots(s[1..]);
      if s[0] == '.' {
        assert ([""] + rest)[1..] == rest;
        assert s == "" + "." + s[1..];
      } else {
        var parts := [[s[0]] + rest[0]] + rest[1..];
        if |rest| == 1 {
          assert s == [s[0]] + s[1..];
        } else {
          assert parts[1..] == rest[1..];
          assert JoinDots(rest) == rest[0] + "." + JoinDots(rest[1..]);
          assert s == [s[0]] + s[1..];
        }
      }
    }
  }

  /** A digit string without a superfluous leading zero is the rendering of its value. */
  lemma {:induction false} DecimalOfDigits(p: string)
    requires 1 <= |p| && IsDigits(p) && (|p| == 1 || p[0] != '0')
    ensures Decimal(ParseDecimal(p)) == p
    decreases |p|
  {
    var q, c := p[..|p| - 1], p[|p| - 1];
    assert p == q + [c];
    if |p| == 1 {
      assert q == [];
    } else {
      assert q[0] == p[0];
      DecimalOfDigits(q);
      var v := ParseDecimal(q);
      assert v != 0;
      var n := v * 10 + DigitValue(c);
      assert n / 10 == v && n % 10 == DigitValue(c);
    }
  }

  /** Splitting an address into its low octet and the rest is exact. */
  lemma SplitLowOctet(a: nat, b: nat)
    requires a < 256
    ensures (a + 256 * b) / 256 == b && (a + 256 * b) % 256 == a
  {
  }

  /** The octets of a rebuilt address are the octets it was built from. */
  lemma OctetsOfRebuild(o0: nat, o1: nat, o2: nat, o3: nat)
    requires o0 < 256 && o1 < 256 && o2 < 256 && o3 < 256
    ensures var ip := Rebuild(o0, o1, o2, o3);
      Octet(ip, 0) == o0 && Octet(ip, 1) == o1 && Octet(ip, 2) == o2 && Octet(ip, 3) == o3
  {
    var ip := Rebuild(o0, o1, o2, o3);
    Regroup(o0, o1, o2, o3);
    assert Shift(ip, 0) == ip;
    SplitLowOctet(o0, o1 + 256 * (o2 + 256 * o3));
    SplitLowOctet(o1, o2 + 256 * o3);
    SplitLowOctet(o2, o3);
    SplitLowOctet(o3, 0);
  }

  /** The only text that parses to an address is that address's rendering, so the
      rendering is the one canonical dotted quad. */
  lemma ParseIpCanonical(s: string, ip: U32)
    requires ParseIp(s) == Some(ip)
    ensures s == FormatIp(ip)
  {
    var parts := SplitDots(s);
    JoinSplitDots(s);
    assert JoinDots(parts[3..]) == parts[3];
    assert JoinDots(parts[2..]) == parts[2] + "." + parts[3] by {
      assert parts[2..][1..] == parts[3..];
    }
    assert JoinDots(parts[1..]) == parts[1] + "." + (parts[2] + "." + parts[3]) by {
      assert parts[1..][1..] == parts[2..];
    }
    assert s == parts[0] + "." + (parts[1] + "." + (parts[2] + "." + parts[3]));
    assert FormatIp(ip) == Decimal(Octet(ip, 0)) + "." + (Decimal(Octet(ip, 1)) + "." + (Decimal(Octet(ip, 2)) + "." + Decimal(Octet(ip, 3))));
    DecimalOfDigits(parts[0]);
    DecimalOfDigits(parts[1]);
    DecimalOfDigits(parts[2]);
    DecimalOfDigits(parts[3]);
    OctetsOfRebuild(ParseDecimal(parts[0]), ParseDecimal(parts[1]), ParseDecimal(parts[2]), ParseDecimal(parts[3]));
  }

  /** Distinct addresses render differently. */
  lemma FormatIpInjective(a: U32, b: U32)
    requires FormatIp(a) == FormatIp(b)
    ensures a == b
  {
    FormatIpRoundTrip(a);
    FormatIpRoundTrip(b);
  }
}
