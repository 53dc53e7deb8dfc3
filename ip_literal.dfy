/** Recognition of IP address literals, as `ipaddress.ip_address(text)` does it
    when the URL analyzer asks whether a netloc is an address rather than a host
    name: the call succeeds for a dotted-quad IPv4 address or for an IPv6
    address, and raises `ValueError` for everything else. */
module IpLiteral {
  import opened Text

  /** Value of a string of ASCII decimal digits. */
  function DecimalValue(s: string): nat
    requires forall i :: 0 <= i < |s| ==> IsAsciiDigit(s[i])
  {
    if s == [] then 0
    else
      assert IsAsciiDigit(s[|s| - 1]);
      DecimalValue(s[..|s| - 1]) * 10 + (s[|s| - 1] as int - '0' as int)
  }

  /** One IPv4 octet: one to three ASCII digits, no leading zero unless the
      octet is "0", value at most 255. */
  predicate IsOctet(p: string)
  {
    && p != []
    && (forall i :: 0 <= i < |p| ==> IsAsciiDigit(p[i]))
    && |p| <= 3
    && (p == "0" || p[0] != '0')
    && DecimalValue(p) <= 255
  }

  /** `IPv4Address(s)` accepts `s`: exactly four octets separated by dots. */
  predicate IsIPv4(s: string)
  {
    var octets := Split(s, '.');
    |octets| == 4 && forall i :: 0 <= i < 4 ==> IsOctet(octets[i])
  }

  /** One group of an IPv6 address: one to four hexadecimal digits. */
  predicate IsHextet(p: string)
  {
    p != [] && |p| <= 4 && forall i :: 0 <= i < |p| ==> IsHexDigit(p[i])
  }

  /** The positions from `from` on, other than the two ends, whose part is
      empty: the places where a `::` skips a run of zero groups. */
  function InnerEmpties(parts: seq<string>, from: nat): (r: seq<nat>)
    requires 1 <= from
    ensures forall j :: 0 <= j < |r| ==> from <= r[j] < |parts| - 1 && parts[r[j]] == ""
    ensures forall k :: from <= k < |parts| - 1 && parts[k] == "" ==> k in r
    decreases |parts| - from
  {
    if from >= |parts| - 1 then []
    else if parts[from] == "" then [from] + InnerEmpties(parts, from + 1)
    else InnerEmpties(parts, from + 1)
  }

  /** The checks on the colon-separated groups once an IPv4 tail, if any, has
      been turned into two groups: at most nine parts, at most one `::`, the
      ends empty only as part of a `::`, at most seven groups beside a `::` and
      exactly eight without one, and every group that is read a valid hextet. */
  predicate ValidGroups(parts: seq<string>)
    requires |parts| >= 3
  {
    var skips := InnerEmpties(parts, 1);
    var n := |parts|;
    && n <= 9
    && |skips| <= 1
    && if |skips| == 1 then
         var k := skips[0];
         var hi := if parts[0] == "" then k - 1 else k;
         var lo := if parts[n - 1] == "" then n - k - 2 else n - k - 1;
         && (parts[0] == "" ==> hi == 0)
         && (parts[n - 1] == "" ==> lo == 0)
         && hi + lo <= 7
         && (forall i :: 0 <= i < hi ==> IsHextet(parts[i]))
         && (forall i :: n - lo <= i < n ==> IsHextet(parts[i]))
       else
         n == 8 && forall i :: 0 <= i < 8 ==> IsHextet(parts[i])
  }

  /** `IPv6Address(s)` accepts `s`: no `/`; an optional non-empty `%scope`
      suffix; then at least three colon-separated parts, of which the last may
      be a dotted-quad IPv4 address standing for two groups. */
  predicate IsIPv6(s: string)
  {
    var cut := IndexOf(s, '%');
    var addr := s[..cut];
    var scope := if cut < |s| then s[cut + 1..] else "";
    && '/' !in s
    && (cut < |s| ==> scope != "" && '%' !in scope)
    && addr != ""
    && var parts := Split(addr, ':');
       && |parts| >= 3
       && var last := parts[|parts| - 1];
          if '.' in last then IsIPv4(last) && ValidGroups(parts[..|parts| - 1] + ["0", "0"])
          else ValidGroups(parts)
  }

  /** `ipaddress.ip_address(s)` returns instead of raising `ValueError`. */
  predicate IsIpAddress(s: string)
  {
    IsIPv4(s) || IsIPv6(s)
  }

  /** Groups whose first part is non-empty but not a hextet are rejected: that
      part is always read, with or without a `::`. */
  lemma FirstGroupRead(parts: seq<string>)
    requires |parts| >= 3 && parts[0] != "" && !IsHextet(parts[0])
    ensures !ValidGroups(parts)
  {
    var skips := InnerEmpties(parts, 1);
    if |skips| == 1 {
      assert 1 <= skips[0];
    }
  }

  /** A netloc in brackets, such as `[::1]`, is never an IP literal: both
      parsers reject the `[`. */
  lemma BracketedIsNotIpAddress(s: string)
    requires s != [] && s[0] == '['
    ensures !IsIpAddress(s)
  {
    var octets := Split(s, '.');
    assert octets[0][0] == '[';
    var cut := IndexOf(s, '%');
    var addr := s[..cut];
    if addr != [] {
      assert addr[0] == '[';
      var parts := Split(addr, ':');
      assert parts[0][0] == '[';
      if |parts| >= 3 {
        var last := parts[|parts| - 1];
        if '.' in last {
          var groups := parts[..|parts| - 1] + ["0", "0"];
          assert groups[0] == parts[0];
          FirstGroupRead(groups);
        } else {
          FirstGroupRead(parts);
        }
      }
    }
  }

  /** No string with a `:` is an IPv4 address: the colon lands in some octet. */
  lemma ColonIsNotIPv4(s: string, k: nat)
    requires k < |s| && s[k] == ':'
    ensures !IsIPv4(s)
  {
    SplitKeepsCharacter(s, '.', k);
  }

  /** No string with fewer than two `:` is an IPv6 address. */
  lemma SingleColonIsNotIPv6(s: string)
    requires CountChar(s, ':') <= 1
    ensures !IsIPv6(s)
  {
    var cut := IndexOf(s, '%');
    CountCharPrefix(s, cut, ':');
  }

  /** A host followed by `:port` is never an IP literal: `ipaddress` does not
      accept a port. */
  lemma HostWithPortIsNotIpAddress(host: string, port: string)
    requires ':' !in host && ':' !in port
    ensures !IsIpAddress(host + ":" + port)
  {
    var s := host + ":" + port;
    assert s[|host|] == ':';
    ColonIsNotIPv4(s, |host|);
    assert s == host + (":" + port);
    CountCharAppend(host, ":" + port, ':');
    CountCharAppend(":", port, ':');
    assert CountChar(":", ':') == 1;
    assert CountChar(host, ':') == 0 by { CountCharAbsent(host, ':'); }
    assert CountChar(port, ':') == 0 by { CountCharAbsent(port, ':'); }
    SingleColonIsNotIPv6(s);
  }

  /** Four dot-free pieces joined by dots split back into those pieces. */
  lemma SplitDottedQuad(a: string, b: string, c: string, d: string)
    requires '.' !in a && '.' !in b && '.' !in c && '.' !in d
    ensures Split(a + "." + (b + "." + (c + "." + d)), '.') == [a, b, c, d]
  {
    SplitWithoutSeparator(a, '.');
    SplitWithoutSeparator(b, '.');
    SplitWithoutSeparator(c, '.');
    SplitWithoutSeparator(d, '.');
    var cd := c + "." + d;
    SplitAppend(c, d, '.');
    assert Split(cd, '.') == [c, d];
    var bcd := b + "." + cd;
    SplitAppend(b, cd, '.');
    assert Split(bcd, '.') == [b, c, d];
    SplitAppend(a, bcd, '.');
  }

  /** Four octets joined by dots form an IPv4 address. */
  lemma DottedQuadIsIPv4(a: string, b: string, c: string, d: string)
    requires IsOctet(a) && IsOctet(b) && IsOctet(c) && IsOctet(d)
    ensures IsIPv4(a + "." + (b + "." + (c + "." + d)))
  {
    assert forall p :: IsOctet(p) ==> '.' !in p by {
      forall p | IsOctet(p) ensures '.' !in p {
        assert forall i :: 0 <= i < |p| ==> IsAsciiDigit(p[i]);
      }
    }
    SplitDottedQuad(a, b, c, d);
  }

  /** `127.0.0.1` is an IPv4 address. */
  lemma LoopbackIsIPv4()
    ensures IsIPv4("127.0.0.1")
  {
    assert "127.0.0.1" == "127" + "." + ("0" + "." + ("0" + "." + "1"));
    assert IsOctet("127") by {
      assert "127"[..2] == "12" && "12"[..1] == "1" && "1"[..0] == "";
    }
    assert IsOctet("0") by {
      assert "0"[..0] == "";
    }
    assert IsOctet("1") by {
      assert "1"[..0] == "";
    }
    DottedQuadIsIPv4("127", "0", "0", "1");
  }

  /** An octet with a leading zero is refused: `01.2.3.4` is not an address. */
  lemma LeadingZeroIsNotIPv4()
    ensures !IsIPv4("01.2.3.4")
  {
    assert "01.2.3.4" == "01" + "." + ("2" + "." + ("3" + "." + "4"));
    SplitDottedQuad("01", "2", "3", "4");
    assert "01"[0] == '0' && "01" != "0";
    assert !IsOctet("01");
    var octets := Split("01.2.3.4", '.');
    assert octets[0] == "01";
  }

  /** An octet above 255 is refused: `256.0.0.1` is not an address. */
  lemma LargeOctetIsNotIPv4()
    ensures !IsIPv4("256.0.0.1")
  {
    assert "256.0.0.1" == "256" + "." + ("0" + "." + ("0" + "." + "1"));
    SplitDottedQuad("256", "0", "0", "1");
    assert DecimalValue("256") == 256 by {
      assert "256"[..2] == "25" && "25"[..1] == "2" && "2"[..0] == "";
    }
    assert !IsOctet("256");
    var octets := Split("256.0.0.1", '.');
    assert octets[0] == "256";
  }

  /** `::1` is an IPv6 address: one `::` standing for seven zero groups. */
  lemma LoopbackIsIPv6()
    ensures IsIPv6("::1")
  {
    assert Split("1", ':') == ["1"] by { SplitWithoutSeparator("1", ':'); }
    assert Split(":1", ':') == ["", "1"] by { assert ":1"[1..] == "1"; }
    assert Split("::1", ':') == ["", "", "1"] by { assert "::1"[1..] == ":1"; }
    var parts: seq<string> := ["", "", "1"];
    assert InnerEmpties(parts, 2) == [];
    assert InnerEmpties(parts, 1) == [1];
    assert IsHextet("1");
    assert IndexOf("::1", '%') == 3 by {
      assert '%' !in "::1";
    }
    assert "::1"[..3] == "::1";
  }
}
