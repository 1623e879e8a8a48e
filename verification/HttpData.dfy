/** Recognising the first packet of an HTTP request (httpdump/tcp_assembly.go). */
module HttpData {
  import opened Basics

  const HTTP_METHODS: set<string> := {"GET", "POST", "PUT", "DELETE", "HEAD", "TRACE", "OPTIONS", "PATCH"}

  const SPACE: Byte := 32

  function AsString(bytes: seq<Byte>): (s: string)
    ensures |s| == |bytes| && forall i :: 0 <= i < |s| ==> s[i] == bytes[i] as char
  {
    seq(|bytes|, i requires 0 <= i < |bytes| => bytes[i] as char)
  }

  function IndexByte(data: seq<Byte>, b: Byte): (index: Option<nat>)
    ensures index.Some? ==> index.value < |data| && data[index.value] == b && b !in data[..index.value]
    ensures index.None? ==> b !in data
  {
    if data == [] then None
    else if data[0] == b then Some(0)
    else match IndexByte(data[1..], b)
      case None => None
      case Some(i) =>
        assert data[..i + 1] == [data[0]] + data[1..][..i];
        Some(i + 1)
  }

  predicate IsHTTPRequestData(body: seq<Byte>) {
    |body| >= 8 &&
    var index := IndexByte(body[..8], SPACE);
    index.Some? && AsString(body[..index.value]) in HTTP_METHODS
  }

  /** The body starts with the method and a space. */
  predicate StartsWithMethod(body: seq<Byte>, name: string) {
    |name| < |body| && AsString(body[..|name|]) == name && body[|name|] == SPACE
  }

  /** The packets taken for a request are exactly those of at least 8 bytes that start with
      one of the eight methods and a space. */
  lemma {:induction false} RequestDataExactly(body: seq<Byte>)
    ensures IsHTTPRequestData(body) <==>
            |body| >= 8 && exists m :: m in HTTP_METHODS && StartsWithMethod(body, m)
  {
    if |body| >= 8 {
      var index := IndexByte(body[..8], SPACE);
      if index.Some? {
        assert body[..8][index.value] == body[index.value];
        if IsHTTPRequestData(body) {
          assert StartsWithMethod(body, AsString(body[..index.value]));
        }
      }
      forall m | m in HTTP_METHODS && StartsWithMethod(body, m)
        ensures index == Some(|m|)
      {
        assert ' ' !in m && |m| < 8;
        assert body[..8][|m|] == SPACE;
        assert forall i :: 0 <= i < |m| ==> body[i] as char == m[i] != ' ';
        assert body[..8][index.value] == body[index.value];
      }
    }
  }
}
