/**
  Request metadata read by the redirect handler (backend/src/main.rs, lines
  137-143 and 165): `get_header` and the remote-address fallback.
 */
module Headers {
  import opened Wrappers

  /** A request header as received: its name and its value. */
  type Header = (string, string)

  function AsciiLower(c: char): char
  {
    if 'A' <= c <= 'Z' then (c as int + 32) as char else c
  }

  /** Header names compare without regard to ASCII case. */
  predicate SameName(a: string, b: string)
  {
    |a| == |b| && forall i :: 0 <= i < |a| ==> AsciiLower(a[i]) == AsciiLower(b[i])
  }

  /** `HeaderValue::to_str` succeeds only on visible ASCII and horizontal tab. */
  predicate IsVisibleAscii(v: string)
  {
    forall i :: 0 <= i < |v| ==> v[i] == '\t' || ' ' <= v[i] <= '~'
  }

  /**
    A value `HeaderValue` accepts when a response header is appended: no
    control character other than horizontal tab, and no DEL. Every character
    beyond ASCII is accepted (its UTF-8 bytes are all 0x80 or above).
   */
  predicate IsValidHeaderValue(v: string)
  {
    forall i :: 0 <= i < |v| ==> v[i] == '\t' || (' ' <= v[i] && v[i] as int != 127)
  }

  /** What `to_str` accepts is also accepted on the response side. */
  lemma VisibleAsciiIsValid(v: string)
    requires IsVisibleAscii(v)
    ensures IsValidHeaderValue(v)
  {
  }

  /** `headers().get(name)`: the value of the first header carrying that name. */
  function FirstValue(headers: seq<Header>, name: string): (r: Option<string>)
    ensures r.None? <==> forall i :: 0 <= i < |headers| ==> !SameName(headers[i].0, name)
    ensures r.Some? ==> exists i :: (0 <= i < |headers| && SameName(headers[i].0, name)
                                     && headers[i].1 == r.value
                                     && forall j :: 0 <= j < i ==> !SameName(headers[j].0, name))
  {
    if |headers| == 0 then None
    else if SameName(headers[0].0, name) then Some(headers[0].1)
    else
      var r := FirstValue(headers[1..], name);
      assert r.Some? ==> exists i :: (1 <= i < |headers| && SameName(headers[i].0, name)
                                      && headers[i].1 == r.value
                                      && forall j :: 0 <= j < i ==> !SameName(headers[j].0, name));
      r
  }

  /**
    `get_header`: the first value of the named header, or the empty string
    when there is none or its value is not visible ASCII.
   */
  function GetHeader(headers: seq<Header>, name: string): (v: string)
    ensures v == "" || (IsVisibleAscii(v) && FirstValue(headers, name) == Some(v))
    ensures FirstValue(headers, name).None? ==> v == ""
    ensures FirstValue(headers, name).Some? && IsVisibleAscii(FirstValue(headers, name).value)
      ==> v == FirstValue(headers, name).value
  {
    match FirstValue(headers, name)
    case Some(value) => if IsVisibleAscii(value) then value else ""
    case None => ""
  }

  lemma SameNameEquivalence(a: string, b: string, c: string)
    ensures SameName(a, b) ==> SameName(b, a)
    ensures SameName(a, b) && SameName(b, c) ==> SameName(a, c)
  {
  }

  /** Looking up "User-Agent" or "user-agent" gives the same answer. */
  lemma {:induction false} FirstValueIgnoresCase(headers: seq<Header>, n1: string, n2: string)
    requires SameName(n1, n2)
    ensures FirstValue(headers, n1) == FirstValue(headers, n2)
  {
    if |headers| > 0 {
      var h := headers[0].0;
      SameNameEquivalence(h, n1, n2);
      SameNameEquivalence(n1, n2, h);
      SameNameEquivalence(h, n2, n1);
      FirstValueIgnoresCase(headers[1..], n1, n2);
    }
  }

  lemma GetHeaderIgnoresCase(headers: seq<Header>, n1: string, n2: string)
    requires SameName(n1, n2)
    ensures GetHeader(headers, n1) == GetHeader(headers, n2)
  {
    FirstValueIgnoresCase(headers, n1, n2);
  }

  /** Two header lists that differ only in the ASCII case of their names. */
  predicate SameUpToNameCase(h1: seq<Header>, h2: seq<Header>)
  {
    |h1| == |h2| && forall i :: 0 <= i < |h1| ==> SameName(h1[i].0, h2[i].0) && h1[i].1 == h2[i].1
  }

  /** The client may spell header names in any ASCII case: the lookup finds the same value. */
  lemma {:induction false} FirstValueIgnoresHeaderCase(h1: seq<Header>, h2: seq<Header>, name: string)
    requires SameUpToNameCase(h1, h2)
    ensures FirstValue(h1, name) == FirstValue(h2, name)
  {
    if |h1| > 0 {
      SameNameEquivalence(h2[0].0, h1[0].0, name);
      SameNameEquivalence(h1[0].0, h2[0].0, name);
      assert SameUpToNameCase(h1[1..], h2[1..]);
      FirstValueIgnoresHeaderCase(h1[1..], h2[1..], name);
    }
  }

  /** `get_header(&req, "User-Agent")` does not depend on how the client cases the header name. */
  lemma GetHeaderIgnoresHeaderCase(h1: seq<Header>, h2: seq<Header>, name: string)
    requires SameUpToNameCase(h1, h2)
    ensures GetHeader(h1, name) == GetHeader(h2, name)
  {
    FirstValueIgnoresHeaderCase(h1, h2, name);
  }

  /** `realip_remote_addr().unwrap_or("unknown")`. */
  function ClientIp(remoteAddr: Option<string>): string
  {
    match remoteAddr
    case Some(addr) => addr
    case None => "unknown"
  }
}
