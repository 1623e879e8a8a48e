/** Endpoints, their text and the connection key (httpdump/endpoint.go, httpdump/tcp_assembly.go). */
module Endpoints {
  type Port = x: int | 0 <= x < 0x1_0000

  /** The text of an IP address, dotted or with colons: it has no '-'. */
  type Address = s: string | '-' !in s

  datatype Endpoint = Endpoint(ip: Address, port: Port)

  function Digit(d: nat): (c: char)
    requires d < 10
    ensures '0' <= c <= '9'
  {
    "0123456789"[d]
  }

  /** `strconv.Itoa` on a non-negative number. */
  function Itoa(n: nat): (s: string)
    ensures s != [] && forall i :: 0 <= i < |s| ==> '0' <= s[i] <= '9'
  {
    if n < 10 then [Digit(n)] else Itoa(n / 10) + [Digit(n % 10)]
  }

  function Text(e: Endpoint): string {
    e.ip + ":" + Itoa(e.port)
  }

  /** Go's order on strings. */
  predicate Less(a: string, b: string) {
    b != [] && (a == [] || a[0] < b[0] || (a[0] == b[0] && Less(a[1..], b[1..])))
  }

  /** The key under which the packets of both directions find their connection. */
  function Key(src: Endpoint, dst: Endpoint): string {
    var s, d := Text(src), Text(dst);
    if Less(s, d) then s + "-" + d else d + "-" + s
  }

  lemma {:induction false} LessIsTotal(a: string, b: string)
    ensures !(Less(a, b) && Less(b, a))
    ensures Less(a, b) || Less(b, a) || a == b
  {
    if a != [] && b != [] && a[0] == b[0] {
      LessIsTotal(a[1..], b[1..]);
      assert a == [a[0]] + a[1..] && b == [b[0]] + b[1..];
    }
  }

  lemma {:induction false} ItoaIsInjective(m: nat, n: nat)
    requires Itoa(m) == Itoa(n)
    ensures m == n
  {
    var s, t := Itoa(m), Itoa(n);
    assert s[|s| - 1] == Digit(m % 10) && t[|t| - 1] == Digit(n % 10);
    assert m % 10 == n % 10;
    if m >= 10 && n >= 10 {
      assert s[..|s| - 1] == Itoa(m / 10) && t[..|t| - 1] == Itoa(n / 10);
      ItoaIsInjective(m / 10, n / 10);
    }
  }

  /** Text split at a separator that does not occur after it splits one way only. */
  lemma {:induction false} SplitAtLast(p: string, q: string, s: string, t: string, sep: char)
    requires p + [sep] + s == q + [sep] + t
    requires sep !in s && sep !in t
    ensures p == q && s == t
  {
    var x, y := p + [sep] + s, q + [sep] + t;
    assert x[|p|] == sep && y[|q|] == sep;
    assert forall i :: |p| < i < |x| ==> x[i] == s[i - |p| - 1];
    assert forall i :: |q| < i < |y| ==> y[i] == t[i - |q| - 1];
    assert |p| == |q|;
    assert p == x[..|p|] && q == y[..|q|] && s == x[|p| + 1..] && t == y[|q| + 1..];
  }

  lemma {:induction false} SplitAtFirst(p: string, q: string, s: string, t: string, sep: char)
    requires p + [sep] + s == q + [sep] + t
    requires sep !in p && sep !in q
    ensures p == q && s == t
  {
    var x, y := p + [sep] + s, q + [sep] + t;
    assert x[|p|] == sep && y[|q|] == sep;
    assert forall i :: 0 <= i < |p| ==> x[i] == p[i];
    assert forall i :: 0 <= i < |q| ==> y[i] == q[i];
    assert |p| == |q|;
    assert p == x[..|p|] && q == y[..|q|] && s == x[|p| + 1..] && t == y[|q| + 1..];
  }

  /** Distinct endpoints have distinct texts, colons in the address included. */
  lemma {:induction false} TextIsInjective(a: Endpoint, b: Endpoint)
    requires Text(a) == Text(b)
    ensures a == b
  {
    SplitAtLast(a.ip, b.ip, Itoa(a.port), Itoa(b.port), ':');
    ItoaIsInjective(a.port, b.port);
  }

  /** Both directions of a connection share one key. */
  lemma {:induction false} KeyIsSymmetric(a: Endpoint, b: Endpoint)
    ensures Key(a, b) == Key(b, a)
  {
    LessIsTotal(Text(a), Text(b));
  }

  /** Two pairs of endpoints share a key exactly when they are the same unordered pair. */
  lemma {:induction false} KeyIdentifiesPair(a: Endpoint, b: Endpoint, c: Endpoint, d: Endpoint)
    ensures Key(a, b) == Key(c, d) <==> (a == c && b == d) || (a == d && b == c)
  {
    KeyIsSymmetric(a, b);
    if Key(a, b) == Key(c, d) {
      var (p, q) := if Less(Text(a), Text(b)) then (a, b) else (b, a);
      var (r, s) := if Less(Text(c), Text(d)) then (c, d) else (d, c);
      SplitAtFirst(Text(p), Text(r), Text(q), Text(s), '-');
      TextIsInjective(p, r);
      TextIsInjective(q, s);
    }
  }
}
