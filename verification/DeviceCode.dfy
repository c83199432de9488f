/**
 The device code published with every telemetry message (`deviceCode` in
 internal/natsclient/message.go) over gateway names allowed by `gwIDPattern`
 (internal/config/config.go).
*/
module DeviceCode {
  import opened Bits
  import opened Plans

  const COLON: byte := 58

  predicate GatewayChar(c: byte) {
    48 <= c <= 57 || 65 <= c <= 90 || 97 <= c <= 122 || c == 95 || c == 45
  }

  /** `gwIDPattern`. */
  predicate GatewayName(name: Text) { name != [] && forall c :: c in name ==> GatewayChar(c) }

  /** `%03d` of a number that is not negative. */
  function Padded(n: nat): Text {
    var d := Digits(n);
    if |d| == 1 then [48, 48] + d else if |d| == 2 then [48] + d else d
  }

  predicate Narrow(index: int) { 0 <= index <= 999 }

  function Code(gateway: Text, channel: int, device: int): Text {
    if !Narrow(channel) || !Narrow(device) then gateway + [COLON] + (Decimal(channel) + [COLON] + Decimal(device))
    else gateway + (Padded(channel) + Padded(device))
  }

  lemma PaddedDigits(n: nat)
    requires n <= 999
    ensures Padded(n) == [48 + n / 100, 48 + n / 10 % 10, 48 + n % 10]
  {
    var tens := n / 10;
    var hundreds := tens / 10;
    assert hundreds == n / 100;
    if n >= 10 {
      assert Digits(n) == Digits(tens) + [48 + n % 10];
      if tens >= 10 {
        assert Digits(tens) == Digits(hundreds) + [48 + tens % 10];
      }
    }
  }

  lemma FromDigits(n: nat)
    ensures n == 10 * (10 * (n / 100) + n / 10 % 10) + n % 10
  {
    var tens := n / 10;
    assert tens / 10 == n / 100;
  }

  lemma PaddedInjective(m: nat, n: nat)
    requires m <= 999 && n <= 999 && Padded(m) == Padded(n)
    ensures m == n
  {
    PaddedDigits(m);
    PaddedDigits(n);
    SameDigits(m / 100, m / 10 % 10, m % 10, n / 100, n / 10 % 10, n % 10);
    FromDigits(m);
    FromDigits(n);
  }

  lemma SameDigits(a: nat, b: nat, c: nat, a': nat, b': nat, c': nat)
    requires a < 10 && b < 10 && c < 10 && a' < 10 && b' < 10 && c' < 10
    requires var s: Text, t: Text := [48 + a, 48 + b, 48 + c], [48 + a', 48 + b', 48 + c']; s == t
    ensures a == a' && b == b' && c == c'
  {
    var s: Text, t: Text := [48 + a, 48 + b, 48 + c], [48 + a', 48 + b', 48 + c'];
    assert s[0] == t[0] && s[1] == t[1] && s[2] == t[2];
  }

  lemma NoColon(n: int)
    ensures COLON !in Decimal(n)
  {
  }

  lemma NotLonger(a: Text, x: Text, b: Text, y: Text)
    requires a + [COLON] + x == b + [COLON] + y
    ensures |a| < |b| ==> COLON in b
  {
    if |a| < |b| {
      assert (b + [COLON] + y)[|a|] == b[|a|] && (a + [COLON] + x)[|a|] == COLON;
    }
  }

  /** Text up to the first separator, and after it, can be told apart. */
  lemma SplitUnique(a: Text, x: Text, b: Text, y: Text)
    requires COLON !in a && COLON !in b
    requires a + [COLON] + x == b + [COLON] + y
    ensures a == b && x == y
  {
    var s, t := a + [COLON] + x, b + [COLON] + y;
    NotLonger(a, x, b, y);
    NotLonger(b, y, a, x);
    assert s[..|a|] == a && t[..|b|] == b;
    assert s[|a| + 1..] == x && t[|b| + 1..] == y;
  }

  lemma ColonIffWide(gateway: Text, channel: int, device: int)
    requires GatewayName(gateway)
    ensures COLON in Code(gateway, channel, device) <==> !Narrow(channel) || !Narrow(device)
  {
    if Narrow(channel) && Narrow(device) {
      PaddedDigits(channel);
      PaddedDigits(device);
    } else {
      assert Code(gateway, channel, device)[|gateway|] == COLON;
    }
  }

  /** No two devices share a code, across gateways and across the two forms. */
  lemma CodeInjective(g: Text, c: int, d: int, g': Text, c': int, d': int)
    requires GatewayName(g) && GatewayName(g')
    requires Code(g, c, d) == Code(g', c', d')
    ensures g == g' && c == c' && d == d'
  {
    ColonIffWide(g, c, d);
    ColonIffWide(g', c', d');
    if Narrow(c) && Narrow(d) {
      FixedInjective(g, c, d, g', c', d');
    } else {
      NoColon(c);
      NoColon(c');
      SplitUnique(g, Decimal(c) + [COLON] + Decimal(d), g', Decimal(c') + [COLON] + Decimal(d'));
      SplitUnique(Decimal(c), Decimal(d), Decimal(c'), Decimal(d'));
      DecimalInjective(c, c');
      DecimalInjective(d, d');
    }
  }

  lemma FixedInjective(g: Text, c: int, d: int, g': Text, c': int, d': int)
    requires Narrow(c) && Narrow(d) && Narrow(c') && Narrow(d')
    requires Code(g, c, d) == Code(g', c', d')
    ensures g == g' && c == c' && d == d'
  {
    PaddedDigits(c);
    PaddedDigits(d);
    PaddedDigits(c');
    PaddedDigits(d');
    var n := |g|;
    var s, t := Code(g, c, d), Code(g', c', d');
    assert |g'| == n;
    assert s[..n] == g && t[..n] == g';
    assert s[n..n + 3] == Padded(c) && t[n..n + 3] == Padded(c');
    assert s[n + 3..] == Padded(d) && t[n + 3..] == Padded(d');
    PaddedInjective(c, c');
    PaddedInjective(d, d');
  }
}
