/** The loops of the request parser, with its scan of eight characters at a time, against the grammar of
    `HttpRequest`. */
module HttpParser {
  import opened Optional
  import opened HttpRequest

  /** `get_token_to_eol`: blocks of eight printable characters are passed over without looking for the end of
      the buffer, and the rest is read one by one. */
  method GetTokenToEol(buf: string, p: nat) returns (r: Parsed<Slice>)
    requires p <= |buf|
    ensures r == TokenToEol(buf, p)
  {
    var q, found := p, false;
    while !found && |buf| - q >= 8
      invariant p <= q <= |buf| && ControlFrom(buf, p) == ControlFrom(buf, q)
      invariant found ==> q < |buf| && IsControl(buf[q])
      decreases |buf| - q, !found
    {
      var k := 0;
      ghost var start := q;
      while k < 8 && IsPrintableAscii(buf[q])
        invariant 0 <= k <= 8 && q == start + k && |buf| - start >= 8
        invariant ControlFrom(buf, p) == ControlFrom(buf, q)
        decreases 8 - k
      {
        q, k := q + 1, k + 1;
      }
      if k < 8 {
        if (buf[q] < ' ' && buf[q] != '\t') || buf[q] == '\U{7F}' {
          found := true;
        } else {
          q := q + 1;
        }
      }
    }
    while !found
      invariant p <= q <= |buf| && ControlFrom(buf, p) == ControlFrom(buf, q)
      invariant found ==> q < |buf| && IsControl(buf[q])
      decreases |buf| - q, !found
    {
      if q == |buf| {
        return More;
      }
      if !IsPrintableAscii(buf[q]) && ((buf[q] < ' ' && buf[q] != '\t') || buf[q] == '\U{7F}') {
        found := true;
      } else {
        q := q + 1;
      }
    }
    if buf[q] == '\r' {
      if q + 1 == |buf| {
        return More;
      }
      return if buf[q + 1] == '\n' then Got(Slice(p, q - p), q + 2) else Bad;
    } else if buf[q] == '\n' {
      return Got(Slice(p, q - p), q + 1);
    }
    return Bad;
  }

  /** `ADVANCE_TOKEN`. */
  method AdvanceToken(buf: string, p: nat) returns (r: Parsed<()>)
    requires p <= |buf|
    ensures r == TokenEnd(buf, p)
  {
    var q := p;
    while q < |buf|
      invariant p <= q <= |buf| && TokenEnd(buf, p) == TokenEnd(buf, q)
    {
      if buf[q] == ' ' {
        return Got((), q);
      }
      if !IsPrintableAscii(buf[q]) && (buf[q] < ' ' || buf[q] == '\U{7F}') {
        return Bad;
      }
      q := q + 1;
    }
    return More;
  }

  /** The name of a header, the colon and the blanks behind it. */
  method ParseHeaderName(buf: string, p: nat) returns (r: Parsed<Slice>)
    requires p <= |buf|
    ensures r == HeaderName(buf, p)
  {
    hide IsTokenChar;
    var q := p;
    while q < |buf| && buf[q] != ':'
      invariant p <= q <= |buf| && NameEnd(buf, p) == NameEnd(buf, q)
    {
      if !IsTokenChar(buf[q]) {
        return Bad;
      }
      q := q + 1;
    }
    if q == |buf| {
      return More;
    }
    if q == p {
      return Bad;
    }
    var v := q + 1;
    while v < |buf| && IsBlank(buf[v])
      invariant q < v <= |buf| && SkipBlanks(buf, q + 1) == SkipBlanks(buf, v)
    {
      v := v + 1;
    }
    if v == |buf| {
      return More;
    }
    return Got(Slice(p, q - p), v);
  }

  /** `parse_headers`. */
  method ParseHeaders(buf: string, p: nat, maxHeaders: nat) returns (r: Parsed<seq<Header>>)
    requires p <= |buf|
    ensures r == Headers(buf, p, [], maxHeaders)
  {
    hide HeaderName, TokenToEol;
    var q, headers := p, [];
    while true
      invariant p <= q <= |buf| && Headers(buf, p, [], maxHeaders) == Headers(buf, q, headers, maxHeaders)
      decreases |buf| - q
    {
      if q == |buf| {
        return More;
      }
      if buf[q] == '\r' {
        if q + 1 == |buf| {
          return More;
        }
        return if buf[q + 1] == '\n' then Got(headers, q + 2) else Bad;
      }
      if buf[q] == '\n' {
        return Got(headers, q + 1);
      }
      if |headers| == maxHeaders {
        return Bad;
      }
      var name, v := None, q;
      if headers == [] || !IsBlank(buf[q]) {
        var n := ParseHeaderName(buf, q);
        if !n.Got? {
          return n.PropagateFailure();
        }
        name, v := Some(n.value), n.pos;
      }
      var value := GetTokenToEol(buf, v);
      if !value.Got? {
        return value.PropagateFailure();
      }
      headers, q := headers + [Header(name, value.value)], value.pos;
    }
  }

  /** `parse_request`. */
  method ParseRequest(buf: string, maxHeaders: nat) returns (r: Parsed<Request>)
    ensures r == Parse(buf, maxHeaders)
  {
    hide TokenEnd, Version, Headers;
    if buf == "" {
      return More;
    }
    var m := 0;
    if buf[m] == '\r' {
      m := m + 1;
      if m == |buf| {
        return More;
      }
      if buf[m] != '\n' {
        return Bad;
      }
      m := m + 1;
    } else if buf[m] == '\n' {
      m := m + 1;
    }
    var method_ := AdvanceToken(buf, m);
    if !method_.Got? {
      return method_.PropagateFailure();
    }
    var p := method_.pos + 1;
    var path := AdvanceToken(buf, p);
    if !path.Got? {
      return path.PropagateFailure();
    }
    var minor := ParseVersion(buf, path.pos + 1);
    if !minor.Got? {
      return minor.PropagateFailure();
    }
    var v := minor.pos;
    if buf[v] == '\r' {
      v := v + 1;
      if v == |buf| {
        return More;
      }
      if buf[v] != '\n' {
        return Bad;
      }
      v := v + 1;
    } else if buf[v] == '\n' {
      v := v + 1;
    } else {
      return Bad;
    }
    var headers := ParseHeaders(buf, v, maxHeaders);
    if !headers.Got? {
      return headers.PropagateFailure();
    }
    return Got(Request(Slice(m, method_.pos - m), Slice(p, path.pos - p), minor.value, headers.value), headers.pos);
  }

  /** `parse_http_version`: the characters are compared one by one. */
  method ParseVersion(buf: string, p: nat) returns (r: Parsed<nat>)
    requires p <= |buf|
    ensures r == Version(buf, p)
  {
    if |buf| - p < 9 {
      return More;
    }
    var expected, k := "HTTP/1.", 0;
    while k < |expected|
      invariant 0 <= k <= |expected| && buf[p..p + k] == expected[..k]
    {
      if buf[p + k] != expected[k] {
        assert buf[p..p + 7][k] == buf[p + k];
        return Bad;
      }
      assert buf[p..p + k + 1] == buf[p..p + k] + [buf[p + k]];
      k := k + 1;
    }
    assert buf[p..p + 7] == expected[..7] == expected;
    if buf[p + 7] < '0' || '9' < buf[p + 7] {
      return Bad;
    }
    return Got(buf[p + 7] as int - '0' as int, p + 8);
  }
}
