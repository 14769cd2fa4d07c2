/** The authority of a URL (section 3.2 of RFC 3986) as `urllib.parse` reads it, and the authority
    `mask_sensitive_value` writes in its place: user name, mask, host in small letters, port. */
module UrlAuthority {
  import opened Texts
  import opened Wrappers
  import opened Masking

  // ----- Reading -----

  // The last index of a character, or -1.
  function LastIndexOf(s: string, c: char): (i: int)
    ensures -1 <= i < |s| && (i >= 0 ==> s[i] == c)
    ensures forall j: nat :: i < j < |s| ==> s[j] != c
  {
    if s == "" || s[|s| - 1] == c then |s| - 1 else LastIndexOf(s[..|s| - 1], c)
  }

  function Before(s: string, c: char): string {
    s[..IndexOf(s, c)]
  }

  // What follows the first such character; nothing if there is none.
  function Behind(s: string, c: char): string {
    var i := IndexOf(s, c);
    if i < |s| then s[i + 1..] else ""
  }

  function HostInfo(netloc: string): string {
    netloc[LastIndexOf(netloc, '@') + 1..]
  }

  function Username(netloc: string): Option<string> {
    var i := LastIndexOf(netloc, '@');
    if i < 0 then None else Some(Before(netloc[..i], ':'))
  }

  datatype HostPort = HostPort(host: string, port: string)

  function SplitHost(info: string): HostPort {
    if '[' in info then
      var bracketed := Behind(info, '[');
      HostPort(Before(bracketed, ']'), Behind(Behind(bracketed, ']'), ':'))
    else HostPort(Before(info, ':'), Behind(info, ':'))
  }

  // The host in small letters, but not its zone behind a percent sign.
  function Hostname(host: string): string {
    var n := IndexOf(host, '%');
    Lower(host[..n]) + host[n..]
  }

  predicate IsDigits(s: string) {
    forall i :: 0 <= i < |s| ==> '0' <= s[i] <= '9'
  }

  function Number(digits: string): nat
    requires IsDigits(digits)
  {
    if digits == "" then 0
    else Number(digits[..|digits| - 1]) * 10 + (digits[|digits| - 1] as int - '0' as int)
  }

  function Decimal(n: nat): string {
    var last := [('0' as int + n % 10) as char];
    if n < 10 then last else Decimal(n / 10) + last
  }

  // A missing port reads as 0, for the program drops both; anything but digits up to 65535 raises.
  function ReadPort(port: string): Option<nat> {
    if IsDigits(port) && Number(port) <= 65535 then Some(Number(port)) else None
  }

  // ----- Writing -----

  function UserPart(username: Option<string>): string {
    if username.Some? then username.value + ":" + MASK + "@" else ""
  }

  function PortPart(port: nat): string {
    if port == 0 then "" else ":" + Decimal(port)
  }

  // The host and port as they are written, if the port can be read.
  function MaskedHost(info: string): Option<string> {
    var split := SplitHost(info);
    match ReadPort(split.port)
    case None => None
    case Some(port) => Some(Hostname(split.host) + PortPart(port))
  }

  function MaskedAuthority(netloc: string): Option<string> {
    match MaskedHost(HostInfo(netloc))
    case None => None
    case Some(info) => Some(UserPart(Username(netloc)) + info)
  }

  // ----- The password -----

  lemma LastIs(s: string, c: char, i: nat)
    requires i < |s| && s[i] == c && c !in s[i + 1..]
    ensures LastIndexOf(s, c) == i
  {
    hide LastIndexOf;
    forall j | i < j < |s|
      ensures s[j] != c
    {
      assert s[j] == s[i + 1..][j - i - 1];
    }
  }

  lemma LastAt(user: string, host: string)
    requires '@' !in host
    ensures LastIndexOf(user + "@" + host, '@') == |user|
  {
    hide LastIndexOf;
    var s := user + "@" + host;
    assert s[|user| + 1..] == host;
    LastIs(s, '@', |user|);
  }

  lemma IndexIs(a: string, c: char, b: string)
    requires c !in a
    ensures IndexOf(a + [c] + b, c) == |a| && Before(a + [c] + b, c) == a && Behind(a + [c] + b, c) == b
    ensures IndexOf(a, c) == |a| && Before(a, c) == a && Behind(a, c) == ""
  {
    var s := a + [c] + b;
    assert s[|a|] == c;
    assert forall j :: 0 <= j < |a| ==> s[j] == a[j];
    assert s[..|a|] == a && s[|a| + 1..] == b;
  }

  lemma AuthorityParts(user: string, password: string, host: string)
    requires ':' !in user && '@' !in host
    ensures var netloc := user + ":" + password + "@" + host;
            Username(netloc) == Some(user) && HostInfo(netloc) == host
  {
    hide LastIndexOf, IndexOf;
    var info := user + ":" + password;
    LastAt(info, host);
    assert (info + "@" + host)[..|info|] == info && (info + "@" + host)[|info| + 1..] == host;
    IndexIs(user, ':', password);
  }

  /** Whatever the password is, colons and at signs included, the masked authority is the one with
      the mask for a password. */
  lemma PasswordIsHidden(user: string, password: string, host: string)
    requires ':' !in user && '@' !in host
    ensures MaskedAuthority(user + ":" + password + "@" + host) == MaskedAuthority(user + ":" + MASK + "@" + host)
  {
    hide MaskedHost, Username, HostInfo;
    AuthorityParts(user, password, host);
    AuthorityParts(user, MASK, host);
  }

  // ----- What is written -----

  lemma HostWithoutUser(info: string)
    requires '@' !in info
    ensures HostInfo(info) == info && Username(info) == None
  {
    hide LastIndexOf;
  }

  lemma {:induction false} DecimalReads(n: nat)
    ensures Decimal(n) != "" && IsDigits(Decimal(n)) && Number(Decimal(n)) == n
  {
    if n >= 10 {
      DecimalReads(n / 10);
      assert Decimal(n)[..|Decimal(n)| - 1] == Decimal(n / 10);
    } else {
      assert Decimal(n)[..0] == "";
    }
  }

  /** With a user name and a password, or only a user name, in front: the user name, a colon, three
      asterisks, an at sign, and the host and port; with neither, just these. */
  lemma UserIsWritten(user: string, password: string, info: string)
    requires ':' !in user && '@' !in info
    ensures var host := MaskedHost(info);
            && MaskedAuthority(info) == host
            && MaskedAuthority(user + ":" + password + "@" + info) ==
                 (if host.None? then None else Some(user + ":***@" + host.value))
            && MaskedAuthority(user + "@" + info) == MaskedAuthority(user + ":" + password + "@" + info)
  {
    hide MaskedHost, HostInfo, Username;
    HostWithoutUser(info);
    AuthorityParts(user, password, info);
    UserAlone(user, info);
    assert user + ":" + MASK + "@" == user + ":***@";
    if MaskedHost(info).Some? {
      assert UserPart(None) + MaskedHost(info).value == MaskedHost(info).value;
    }
  }

  lemma UserAlone(user: string, info: string)
    requires ':' !in user && '@' !in info
    ensures Username(user + "@" + info) == Some(user) && HostInfo(user + "@" + info) == info
  {
    hide LastIndexOf, IndexOf;
    LastAt(user, info);
    assert (user + "@" + info)[..|user|] == user && (user + "@" + info)[|user| + 1..] == info;
    IndexIs(user, ':', "");
  }

  /** The host in small letters, but for what stands behind a percent sign. */
  lemma HostLetters(host: string, zone: string)
    requires '%' !in host
    ensures Hostname(host) == Lower(host) && Hostname(host + "%" + zone) == Lower(host) + "%" + zone
  {
    hide IndexOf;
    IndexIs(host, '%', zone);
    assert host + "%" + zone == host + ['%'] + zone;
    assert (host + "%" + zone)[|host|..] == "%" + zone && (host + "%" + zone)[..|host|] == host;
    assert Lower(host) + "" == Lower(host);
  }

  // The part behind the host: a port is left out if there is none or it is 0, and fails as it should.
  ghost predicate IsWritten(host: string, port: string, r: Option<string>) {
    if !IsDigits(port) || Number(port) > 65535 then r == None
    else r == Some(if Number(port) == 0 then Hostname(host) else Hostname(host) + ":" + Decimal(Number(port)))
  }

  /** A host and a port, with and without brackets around the host. */
  lemma HostIsWritten(host: string, port: string)
    ensures '[' !in host && ':' !in host && '[' !in port ==>
              MaskedHost(host) == Some(Hostname(host)) && IsWritten(host, port, MaskedHost(host + ":" + port))
    ensures ']' !in host ==>
              && MaskedHost("[" + host + "]") == Some(Hostname(host))
              && IsWritten(host, port, MaskedHost("[" + host + "]:" + port))
  {
    hide SplitHost, Hostname, Decimal;
    NoPortIsZero();
    assert Hostname(host) + "" == Hostname(host);
    if '[' !in host && ':' !in host && '[' !in port {
      PortReads(host, port);
      assert host + ":" + port == host + [':'] + port;
      assert forall n: nat :: Hostname(host) + (":" + Decimal(n)) == Hostname(host) + ":" + Decimal(n);
    }
    if ']' !in host {
      BracketReads(host, port);
      assert forall n: nat :: Hostname(host) + (":" + Decimal(n)) == Hostname(host) + ":" + Decimal(n);
    }
  }

  lemma NoPortIsZero()
    ensures ReadPort("") == Some(0)
  {
  }

  lemma BracketReads(host: string, port: string)
    requires ']' !in host
    ensures SplitHost("[" + host + "]") == HostPort(host, "")
    ensures SplitHost("[" + host + "]:" + port) == HostPort(host, port)
  {
    hide IndexOf, Before, Behind;
    var rest := ":" + port;
    assert "[" + host + "]" == "" + ['['] + (host + "]") && host + "]" == host + [']'] + "";
    assert "[" + host + "]:" + port == "" + ['['] + (host + "]" + rest) && host + "]" + rest == host + [']'] + rest;
    assert rest == "" + [':'] + port;
    assert ("[" + host + "]")[0] == '[' && ("[" + host + "]:" + port)[0] == '[';
    IndexIs("", '[', host + "]");
    IndexIs("", '[', host + "]" + rest);
    IndexIs(host, ']', "");
    IndexIs(host, ']', rest);
    IndexIs("", ':', port);
  }

  lemma PortReads(h: string, digits: string)
    requires ':' !in h && '[' !in h && '[' !in digits
    ensures SplitHost(h + [':'] + digits) == HostPort(h, digits) && SplitHost(h) == HostPort(h, "")
  {
    hide IndexOf, Before, Behind;
    IndexIs(h, ':', digits);
  }

  /** A port without a leading zero is written as it was read, and its value is the decimal one. */
  lemma {:induction false} PortIsKept(digits: string)
    requires IsDigits(digits) && digits != "" && digits[0] != '0'
    ensures Number(digits) > 0 && Decimal(Number(digits)) == digits
    ensures Number(digits) == (if |digits| == 1 then 0 else 10 * Number(digits[..|digits| - 1]))
                              + (digits[|digits| - 1] as int - '0' as int)
  {
    hide Decimal;
    var n := |digits| - 1;
    var d: nat := digits[n] as int - '0' as int;
    if n > 0 {
      PortIsKept(digits[..n]);
      OneMoreDigit(Number(digits[..n]), d);
      assert digits == digits[..n] + [digits[n]];
    } else {
      assert digits[..0] == "" && digits == [digits[0]];
      OneDigit(d);
    }
  }

  lemma OneDigit(d: nat)
    requires d < 10
    ensures Decimal(d) == [('0' as int + d) as char]
  {
  }

  lemma OneMoreDigit(n: nat, d: nat)
    requires n > 0 && d < 10
    ensures Decimal(10 * n + d) == Decimal(n) + [('0' as int + d) as char]
  {
    assert (10 * n + d) / 10 == n && (10 * n + d) % 10 == d;
  }

  // ----- Masking twice -----

  // Lowering changes letters only.
  lemma HostnameAt(host: string, i: nat)
    requires i < |host|
    ensures |Hostname(host)| == |host|
    ensures var (c, d) := (host[i], Hostname(host)[i]); d == c || (IsUpper(c) && IsLower(d))
  {
  }

  lemma HostnameKeeps(host: string, c: char)
    requires !IsLower(c) && !IsUpper(c)
    ensures c in Hostname(host) <==> c in host
  {
    hide Hostname;
    HostnameLength(host);
    if c in host {
      var i :| 0 <= i < |host| && host[i] == c;
      HostnameAt(host, i);
    }
    if c in Hostname(host) {
      var i :| 0 <= i < |Hostname(host)| && Hostname(host)[i] == c;
      HostnameAt(host, i);
    }
  }

  lemma HostnameChars(host: string)
    ensures var n := IndexOf(host, '%');
            && |Hostname(host)| == |host|
            && forall i :: 0 <= i < |host| ==> Hostname(host)[i] == if i < n then ToLower(host[i]) else host[i]
  {
  }

  lemma HostnameTwice(host: string)
    ensures Hostname(Hostname(host)) == Hostname(host)
  {
    HostnameChars(host);
    HostnameChars(Hostname(host));
    assert IndexOf(Hostname(host), '%') == IndexOf(host, '%');
  }

  lemma HostnameOfPrefix(host: string, i: nat)
    requires Hostname(host) == host && i <= |host|
    ensures Hostname(host[..i]) == host[..i]
  {
    HostnameChars(host);
    HostnameChars(host[..i]);
  }

  lemma DecimalChars(port: nat)
    ensures '@' !in PortPart(port) && '[' !in PortPart(port) && ']' !in PortPart(port)
  {
    hide Decimal, Number;
    DecimalReads(port);
  }

  // The host is a name, a colon and the plain decimal of a port.
  predicate IsNameAndPort(host: string) {
    ':' in host && exists n: nat :: 1 <= n <= 65535 && Behind(host, ':') == Decimal(n)
  }

  lemma CutAtIndex(s: string, c: char)
    requires c in s
    ensures s == Before(s, c) + [c] + Behind(s, c) && c !in Before(s, c)
  {
    hide IndexOf;
    var i := IndexOf(s, c);
    assert i < |s|;
    assert s == s[..i] + s[i..];
    assert s[i..] == [s[i]] + s[i + 1..];
  }

  // A host with a colon that was in brackets is cut at the colon when it is read again.
  lemma ColonHostReads(h: string, port: nat)
    requires '[' !in h && ':' in h
    ensures SplitHost(h + PortPart(port)) == HostPort(Before(h, ':'), Behind(h, ':') + PortPart(port))
  {
    hide IndexOf, Before, Behind, Decimal;
    DecimalChars(port);
    CutAtIndex(h, ':');
    var rest := Behind(h, ':') + PortPart(port);
    IndexIs(Before(h, ':'), ':', rest);
    assert h + PortPart(port) == Before(h, ':') + [':'] + rest;
  }

  lemma BracketHostReads(h: string, port: nat)
    requires '[' in h && ']' !in h
    ensures SplitHost(h + PortPart(port)) == HostPort(Behind(h, '[') + PortPart(port), "")
    ensures |Behind(h, '[')| < |h|
  {
    hide IndexOf, Before, Behind, Decimal;
    DecimalChars(port);
    CutAtIndex(h, '[');
    var rest := Behind(h, '[') + PortPart(port);
    IndexIs(Before(h, '['), '[', rest);
    assert h + PortPart(port) == Before(h, '[') + ['['] + rest;
    assert ']' !in rest by {
      assert forall i :: 0 <= i < |Behind(h, '[')| ==> Behind(h, '[')[i] in h;
    }
    IndexIs(rest, ']', "");
    IndexIs("", ':', "");
  }

  lemma PlainHostReads(h: string, port: nat)
    requires '[' !in h && ':' !in h
    ensures SplitHost(h + PortPart(port)) == HostPort(h, if port == 0 then "" else Decimal(port))
  {
    hide SplitHost, Decimal, Number;
    var digits := Decimal(port);
    DecimalReads(port);
    PortReads(h, digits);
    if port == 0 {
      assert h + "" == h;
    } else {
      assert h + (":" + digits) == h + [':'] + digits;
    }
  }

  lemma DecimalIsRead(port: nat)
    requires port <= 65535
    ensures ReadPort(if port == 0 then "" else Decimal(port)) == Some(port)
  {
    DecimalReads(port);
  }

  lemma ColonIsNoPort(s: string)
    ensures ':' in s ==> ReadPort(s) == None
  {
  }

  lemma NameAndPortIff(h: string)
    requires ':' in h
    ensures IsNameAndPort(h) <==>
            var port := ReadPort(Behind(h, ':'));
            port.Some? && port.value > 0 && Behind(h, ':') == Decimal(port.value)
  {
    hide IndexOf, Behind, Decimal, Number;
    if IsNameAndPort(h) {
      var n: nat :| 1 <= n <= 65535 && Behind(h, ':') == Decimal(n);
      DecimalIsRead(n);
    }
  }

  lemma ColonHostTwiceIff(h: string, port: nat)
    requires Hostname(h) == h && '[' !in h && ':' in h
    ensures MaskedHost(h + PortPart(port)) == Some(h + PortPart(port)) <==> port == 0 && IsNameAndPort(h)
  {
    hide IndexOf, SplitHost, Decimal, ReadPort, Hostname, IsNameAndPort;
    ColonHostReads(h, port);
    CutAtIndex(h, ':');
    NameAndPortIff(h);
    var a, b := Before(h, ':'), Behind(h, ':');
    HostnameOfPrefix(h, |a|);
    assert h[..|a|] == a;
    if port > 0 {
      ColonIsNoPort(b + PortPart(port));
    } else {
      assert b + PortPart(0) == b && h + PortPart(0) == h;
      if ReadPort(b).Some? {
        var n := ReadPort(b).value;
        SameBehind(a, PortPart(n), [':'] + b);
        SameBehind(":", Decimal(n), b);
        assert a + [':'] + b == a + ([':'] + b);
      }
    }
  }

  lemma SameBehind(a: string, x: string, y: string)
    ensures a + x == a + y <==> x == y
  {
    assert (a + x)[|a|..] == x && (a + y)[|a|..] == y;
  }

  lemma HostTwiceIff(h: string, port: nat)
    requires Hostname(h) == h && port <= 65535 && ('[' in h ==> ']' !in h)
    ensures MaskedHost(h + PortPart(port)) == Some(h + PortPart(port)) <==>
            '[' !in h && (':' !in h || (port == 0 && IsNameAndPort(h)))
  {
    hide SplitHost, Decimal, ReadPort, Hostname, IsNameAndPort;
    if '[' in h {
      BracketHostReads(h, port);
      DecimalIsRead(0);
      var rest := Behind(h, '[') + PortPart(port);
      HostnameLength(rest);
      assert |Hostname(rest) + PortPart(0)| < |h + PortPart(port)|;
    } else if ':' in h {
      ColonHostTwiceIff(h, port);
    } else {
      PlainHostReads(h, port);
      DecimalIsRead(port);
    }
  }

  lemma HostnameLength(host: string)
    ensures |Hostname(host)| == |host|
  {
  }

  lemma NameAndPortKeeps(host: string)
    ensures IsNameAndPort(Hostname(host)) <==> IsNameAndPort(host)
  {
    hide Hostname, Decimal, Number;
    var h := Hostname(host);
    HostnameKeeps(host, ':');
    if ':' in host {
      ColonStays(host);
      forall n: nat
        ensures Behind(h, ':') == Decimal(n) <==> Behind(host, ':') == Decimal(n)
      {
        DecimalReads(n);
        SameDigits(host, Decimal(n));
      }
    }
  }

  lemma ColonStays(host: string)
    requires ':' in host
    ensures ':' in Hostname(host) && IndexOf(Hostname(host), ':') == IndexOf(host, ':')
  {
    hide IndexOf, Hostname;
    HostnameKeeps(host, ':');
    HostnameLength(host);
    var i, j := IndexOf(host, ':'), IndexOf(Hostname(host), ':');
    HostnameAt(host, i);
    HostnameAt(host, j);
  }

  lemma SameDigits(host: string, digits: string)
    requires ':' in host && IsDigits(digits)
    ensures Behind(Hostname(host), ':') == digits <==> Behind(host, ':') == digits
  {
    hide IndexOf, Hostname;
    ColonStays(host);
    HostnameLength(host);
    var i := IndexOf(host, ':') + 1;
    forall j | i <= j < |host|
      ensures '0' <= host[j] <= '9' ==> Hostname(host)[j] == host[j]
      ensures '0' <= Hostname(host)[j] <= '9' ==> Hostname(host)[j] == host[j]
    {
      HostnameAt(host, j);
    }
    if host[i..] == digits {
      assert forall j :: i <= j < |host| ==> host[j] == digits[j - i];
    }
    if Hostname(host)[i..] == digits {
      assert forall j :: i <= j < |host| ==> Hostname(host)[j] == digits[j - i];
    }
  }

  lemma UserReads(netloc: string, info: string)
    requires '@' !in info
    ensures var m := UserPart(Username(netloc)) + info;
            Username(m) == Username(netloc) && HostInfo(m) == info
  {
    hide IndexOf;
    if Username(netloc).Some? {
      var user := Username(netloc).value;
      assert ':' !in user by {
        var before := netloc[..LastIndexOf(netloc, '@')];
        assert forall j :: 0 <= j < |user| ==> user[j] == before[j] != ':';
      }
      AuthorityParts(user, MASK, info);
      assert user + ":" + MASK + "@" + info == UserPart(Username(netloc)) + info;
    } else {
      assert "" + info == info;
    }
  }

  // The host holds no at sign, and with a "[" it was cut at the first "]".
  lemma HostShape(info: string)
    requires '@' !in info
    ensures var host := SplitHost(info).host;
            '@' !in host && ('[' in host ==> ']' !in host)
  {
    hide IndexOf;
  }

  lemma ReadPortBound(port: string)
    ensures ReadPort(port).Some? ==> ReadPort(port).value <= 65535
  {
  }

  lemma UserIsKept(netloc: string)
    requires MaskedAuthority(netloc).Some?
    ensures var info := MaskedHost(HostInfo(netloc)).value;
            MaskedAuthority(MaskedAuthority(netloc).value) ==
              match MaskedHost(info)
              case None => None
              case Some(again) => Some(UserPart(Username(netloc)) + again)
  {
    hide Username, HostInfo, SplitHost, Hostname, PortPart, ReadPort;
    var split := SplitHost(HostInfo(netloc));
    var port := ReadPort(split.port).value;
    assert '@' !in HostInfo(netloc) by {
      NoAtInHost(netloc);
    }
    HostShape(HostInfo(netloc));
    HostnameKeeps(split.host, '@');
    DecimalChars(port);
    UserReads(netloc, Hostname(split.host) + PortPart(port));
  }

  lemma NoAtInHost(netloc: string)
    ensures '@' !in HostInfo(netloc)
  {
    hide LastIndexOf;
  }

  /** Masking an authority twice is masking it once, if and only if the host that was read holds no
      "[", and no colon either unless it is a name and a port itself and no other port is written. */
  lemma MaskedAuthorityTwice(netloc: string)
    requires MaskedAuthority(netloc).Some?
    ensures var split := SplitHost(HostInfo(netloc));
            MaskedAuthority(MaskedAuthority(netloc).value) == MaskedAuthority(netloc) <==>
            '[' !in split.host
            && (':' !in split.host || (ReadPort(split.port) == Some(0) && IsNameAndPort(split.host)))
  {
    hide Hostname, Username, HostInfo, SplitHost, PortPart, UserPart, IsNameAndPort, ReadPort, MaskedAuthority;
    var split := SplitHost(HostInfo(netloc));
    assert MaskedHost(HostInfo(netloc)).Some? by {
      MaskedHostIsRead(netloc);
    }
    var h, port := Hostname(split.host), ReadPort(split.port).value;
    NoAtInHost(netloc);
    HostShape(HostInfo(netloc));
    HostnameKeeps(split.host, '[');
    HostnameKeeps(split.host, ']');
    HostnameKeeps(split.host, ':');
    HostnameTwice(split.host);
    NameAndPortKeeps(split.host);
    ReadPortBound(split.port);
    HostTwiceIff(h, port);
    UserIsKept(netloc);
    MaskedHostIsRead(netloc);
    var again := MaskedHost(h + PortPart(port));
    if again.Some? {
      SameBehind(UserPart(Username(netloc)), again.value, h + PortPart(port));
    }
  }

  lemma MaskedHostIsRead(netloc: string)
    requires MaskedAuthority(netloc).Some?
    ensures MaskedHost(HostInfo(netloc)).Some?
    ensures MaskedAuthority(netloc) == Some(UserPart(Username(netloc)) + MaskedHost(HostInfo(netloc)).value)
  {
    hide MaskedHost;
  }

  /** So every host with two colons, as an IPv6 address has, loses its brackets and cannot be read
      again, whatever user, password and port stand around it. */
  lemma BracketsAreLost(netloc: string)
    requires MaskedAuthority(netloc).Some?
    requires var host := SplitHost(HostInfo(netloc)).host;
             '[' !in host && ':' in host && ':' in Behind(host, ':')
    ensures MaskedAuthority(MaskedAuthority(netloc).value) == None
  {
    hide Hostname, Username, HostInfo, SplitHost, PortPart, UserPart, ReadPort, IndexOf, MaskedAuthority;
    var split := SplitHost(HostInfo(netloc));
    MaskedHostIsRead(netloc);
    var h, port := Hostname(split.host), ReadPort(split.port).value;
    HostnameKeeps(split.host, '[');
    SecondColonStays(split.host);
    ColonHostReads(h, port);
    ColonIsNoPort(Behind(h, ':') + PortPart(port));
    UserIsKept(netloc);
  }

  lemma SecondColonStays(host: string)
    requires ':' in host && ':' in Behind(host, ':')
    ensures ':' in Hostname(host) && ':' in Behind(Hostname(host), ':')
  {
    hide IndexOf, Hostname;
    ColonStays(host);
    HostnameLength(host);
    var i := IndexOf(host, ':') + 1;
    var k :| 0 <= k < |Behind(host, ':')| && Behind(host, ':')[k] == ':';
    HostnameAt(host, i + k);
    assert Behind(Hostname(host), ':')[k] == ':';
  }

  lemma EmptyAuthority()
    ensures MaskedAuthority("") == Some("")
  {
    hide HostInfo, Username, IndexOf, Before, Behind;
    HostWithoutUser("");
    IndexIs("", ':', "");
    assert SplitHost("") == HostPort("", "");
    assert Hostname("") == "" by {
      assert Lower("") == "";
    }
    assert UserPart(None) + "" + PortPart(0) == "";
  }

  lemma BracketedHost()
    ensures SplitHost("[::1]:80") == HostPort("::1", "80")
  {
    hide IndexOf, Before, Behind;
    assert "[::1]:80" == "" + ['['] + "::1]:80" && "[::1]:80"[0] == '[';
    assert "::1]:80" == "::1" + [']'] + ":80";
    assert ":80" == "" + [':'] + "80";
    IndexIs("", '[', "::1]:80");
    IndexIs("::1", ']', ":80");
    IndexIs("", ':', "80");
  }

  lemma HostWithoutBrackets()
    ensures SplitHost("::1:80") == HostPort("", ":1:80") && ReadPort(":1:80") == None
  {
    hide IndexOf, Before, Behind;
    assert "::1:80" == "" + [':'] + ":1:80";
    IndexIs("", ':', ":1:80");
    assert ":1:80"[0] == ':';
  }

  lemma HostnameOfDigits()
    ensures Hostname("::1") == "::1"
  {
    IndexIs("::1", '%', "");
    assert Lower("::1") == "::1";
  }

  lemma PortEighty()
    ensures Decimal(80) == "80" && ReadPort("80") == Some(80)
  {
    DecimalReads(80);
    assert Decimal(80) == Decimal(8) + "0" && Decimal(8) == "8";
  }

  /** For instance the address of the own machine. */
  lemma LoopbackLosesBrackets()
    ensures MaskedAuthority("[::1]:80") == Some("::1:80") && MaskedAuthority("::1:80") == None
  {
    hide HostInfo, Username, SplitHost, Hostname, ReadPort, Decimal;
    HostWithoutUser("[::1]:80");
    HostWithoutUser("::1:80");
    BracketedHost();
    HostWithoutBrackets();
    HostnameOfDigits();
    PortEighty();
    assert MaskedHost("[::1]:80") == Some("::1:80") by {
      assert "::1" + PortPart(80) == "::1" + ":80" == "::1:80";
    }
    assert UserPart(None) + "::1:80" == "::1:80";
  }
}
