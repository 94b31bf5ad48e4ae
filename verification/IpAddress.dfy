/** ipaddress_parse: a URI is cut into node and service inside one duplicated buffer. */
module IpAddress {
  import opened Memory

  const NUL := '\0'

  datatype Family = Inet | Inet6 | Unspec | Unix

  /** What precedes the first `c`. */
  function Before(s: string, c: char): (r: string)
    ensures r <= s && c !in r
    ensures |r| < |s| <==> c in s
    ensures |r| < |s| ==> s[|r|] == c
  {
    if s == [] || s[0] == c then [] else [s[0]] + Before(s[1..], c)
  }

  function After(s: string, c: char): string
    requires c in s
  {
    s[|Before(s, c)| + 1..]
  }

  lemma {:induction false} BeforeIs(s: string, c: char, n: nat)
    requires n <= |s| && c !in s[..n] && (n < |s| ==> s[n] == c)
    ensures Before(s, c) == s[..n]
  {
    if n > 0 {
      assert s[..n][0] == s[0] && s[1..][..n - 1] == s[..n][1..];
      BeforeIs(s[1..], c, n - 1);
    }
  }

  /** The C string at `off`. */
  function CStr(s: string, off: nat): string
    requires off <= |s|
  {
    Before(s[off..], NUL)
  }

  /** A NUL stored inside or right behind a C string ends it there. */
  lemma CutThere(s: string, off: nat, i: nat)
    requires off <= i < |s| && i - off <= |CStr(s, off)|
    ensures CStr(s[i := NUL], off) == CStr(s, off)[..i - off]
  {
    var t := s[i := NUL];
    assert t[off..][..i - off] == CStr(s, off)[..i - off];
    BeforeIs(t[off..], NUL, i - off);
  }

  /** A NUL stored elsewhere does not matter. */
  lemma CutElsewhere(s: string, off: nat, i: nat)
    requires off <= |s| && i < |s| && (i < off || off + |CStr(s, off)| < i)
    ensures CStr(s[i := NUL], off) == CStr(s, off)
  {
    var t, n := s[i := NUL], |CStr(s, off)|;
    assert t[off..][..n] == CStr(s, off);
    BeforeIs(t[off..], NUL, n);
  }

  /** What is parsed, without the buffer. */
  datatype Address = Address(family: Family, node: string, service: Option<string>)

  const IP4 := "ip4://"
  const IP6 := "ip6://"
  const IP := "ip://"
  const UNIX := "unix://"

  /** Node and service of the part behind the scheme; `None` for an unterminated bracket. */
  function Split(family: Family, rest: string): Option<Address> {
    if family == Unix then Some(Address(family, rest, None))
    else if family == Inet6 && rest != [] && rest[0] == '[' then
      if ']' !in rest[1..] then None
      else Some(Address(family, Before(Before(rest[1..], ']'), '/'), Service(After(rest[1..], ']'))))
    else Some(Address(family, Before(Before(rest, ':'), '/'), Service(rest)))
  }

  function Service(s: string): Option<string> {
    if ':' in s then Some(Before(After(s, ':'), '/')) else None
  }

  function Scheme(uri: string): Option<(Family, nat)> {
    if IP4 <= uri then Some((Inet, 6))
    else if IP6 <= uri then Some((Inet6, 6))
    else if IP <= uri then Some((Unspec, 5))
    else if UNIX <= uri then Some((Unix, 7))
    else None
  }

  function ParseSpec(uri: string): Option<Address> {
    match Scheme(uri)
    case None => None
    case Some((family, n)) => if n <= |uri| then Split(family, uri[n..]) else None
  }

  // ---- the grammar, character by character ----

  /** The four schemes; at most one of them begins a URI. */
  lemma Schemes(uri: string)
    ensures "ip4://" <= uri ==> Scheme(uri) == Some((Inet, 6)) && 6 <= |uri|
    ensures "ip6://" <= uri ==> Scheme(uri) == Some((Inet6, 6)) && 6 <= |uri|
    ensures "ip://" <= uri ==> Scheme(uri) == Some((Unspec, 5)) && 5 <= |uri|
    ensures "unix://" <= uri ==> Scheme(uri) == Some((Unix, 7)) && 7 <= |uri|
    ensures Scheme(uri).None? <==> !("ip4://" <= uri) && !("ip6://" <= uri) && !("ip://" <= uri) && !("unix://" <= uri)
  {
    assert IP4 <= uri ==> uri[0] == 'i' && uri[2] == '4';
    assert IP6 <= uri ==> uri[0] == 'i' && uri[2] == '6';
    assert IP <= uri ==> uri[0] == 'i' && uri[2] == ':';
    assert UNIX <= uri ==> uri[0] == 'u';
  }

  /** A URI is refused exactly if it has none of the four schemes, or an unterminated bracket; the
      scheme decides the family. */
  lemma FamilyOf(uri: string)
    ensures ParseSpec(uri).None?
       <==> || (!("ip4://" <= uri) && !("ip6://" <= uri) && !("ip://" <= uri) && !("unix://" <= uri))
            || ("ip6://[" <= uri && ']' !in uri[7..])
    ensures ParseSpec(uri).Some? ==>
              ParseSpec(uri).value.family == if "ip4://" <= uri then Inet
                                             else if "ip6://" <= uri then Inet6
                                             else if "ip://" <= uri then Unspec
                                             else Unix
  {
    hide Before, After, Service, Scheme;
    Schemes(uri);
    BracketOf(uri);
  }

  lemma BracketOf(uri: string)
    ensures "ip6://[" <= uri <==> "ip6://" <= uri && uri[6..] != [] && uri[6..][0] == '['
    ensures "ip6://[" <= uri ==> uri[6..][1..] == uri[7..]
  {
    if "ip6://" <= uri && uri[6..] != [] && uri[6..][0] == '[' {
      assert uri[..7] == "ip6://" + [uri[6]];
    }
    if "ip6://[" <= uri {
      assert uri[..6] == "ip6://[" [..6] == "ip6://";
      assert uri[6] == '[';
    }
  }

  /** The service is what follows the first ':' up to a '/' or the end. */
  lemma ServiceMeans(s: string)
    ensures Service(s).None? <==> ':' !in s
    ensures Service(s).Some? ==>
              exists k :: && 0 <= k < |s| && s[k] == ':' && ':' !in s[..k]
                          && var u := Service(s).value;
                             u <= s[k + 1..] && '/' !in u && (u == s[k + 1..] || s[k + 1..][|u|] == '/')
  {
    if ':' in s {
      var k := |Before(s, ':')|;
      assert Before(s, ':') == s[..k];
      var u := Service(s).value;
      assert u <= s[k + 1..] && '/' !in u && (|u| < |s[k + 1..]| ==> s[k + 1..][|u|] == '/');
    }
  }

  /** Without a bracket, the node ends at the first ':' or '/', or at the end. */
  lemma PlainMeans(uri: string, n: nat)
    requires ("ip4://" <= uri && n == 6) || ("ip6://" <= uri && !("ip6://[" <= uri) && n == 6) || ("ip://" <= uri && n == 5)
    ensures ParseSpec(uri).Some?
    ensures var rest, node := uri[n..], ParseSpec(uri).value.node;
            && node <= rest && ':' !in node && '/' !in node
            && (node == rest || rest[|node|] == ':' || rest[|node|] == '/')
    ensures ParseSpec(uri).value.service == Service(uri[n..])
  {
    Schemes(uri);
    BracketOf(uri);
    hide Scheme, Service, After;
    var rest := uri[n..];
    NodeMeans(rest);
    hide Before;
    assert ParseSpec(uri) == Split(Scheme(uri).value.0, rest);
  }

  lemma NodeMeans(rest: string)
    ensures var node := Before(Before(rest, ':'), '/');
            && node <= rest && ':' !in node && '/' !in node
            && (node == rest || rest[|node|] == ':' || rest[|node|] == '/')
  {
    var host := Before(rest, ':');
    var node := Before(host, '/');
    assert forall c :: c in node ==> c in host;
    if |node| < |host| {
      assert rest[|node|] == host[|node|];
    }
  }

  /** In brackets, it ends at the first ']' or '/'; the service is searched behind the bracket. */
  lemma BracketMeans(uri: string) returns (i: nat)
    requires "ip6://[" <= uri && ']' in uri[7..]
    ensures ParseSpec(uri).Some?
    ensures 7 <= i < |uri| && uri[i] == ']' && ']' !in uri[7..i]
    ensures var host, node := uri[7..i], ParseSpec(uri).value.node;
            node <= host && '/' !in node && (node == host || host[|node|] == '/')
    ensures ParseSpec(uri).value.service == Service(uri[i + 1..])
  {
    Schemes(uri);
    BracketOf(uri);
    hide Scheme, Service;
    var rest := uri[7..];
    var host := Before(rest, ']');
    i := 7 + |host|;
    assert rest[|host|] == ']';
    assert host == rest[..|host|] == uri[7..i];
    assert After(rest, ']') == uri[i + 1..];
    var node := Before(host, '/');
    assert node <= host && '/' !in node && (node == host || host[|node|] == '/');
    hide Before, After;
    assert ParseSpec(uri) == Split(Inet6, uri[6..]);
  }

  lemma UnixMeans(uri: string)
    requires "unix://" <= uri
    ensures ParseSpec(uri) == Some(Address(Unix, uri[7..], None))
  {
    Schemes(uri);
    hide Scheme, Before, After, Service;
  }

  // ---- the code ----

  /** strchr: the first `c` of the C string at `off`. */
  method StrChr(buf: array<char>, off: nat, c: char) returns (r: Option<nat>)
    requires off <= buf.Length && NUL in buf[off..] && c != NUL
    ensures r.None? <==> c !in CStr(buf[..], off)
    ensures r.Some? ==> r.value == off + |Before(CStr(buf[..], off), c)| < off + |CStr(buf[..], off)|
    ensures r.Some? ==> r.value + 1 < buf.Length
  {
    var i := off;
    ghost var s := CStr(buf[..], off);
    assert buf[off..] == buf[..][off..];
    while buf[i] != NUL
      invariant off <= i <= off + |s| < buf.Length
      invariant c !in s[..i - off]
      decreases off + |s| - i
    {
      assert buf[i] == s[i - off];
      if buf[i] == c {
        BeforeIs(s, c, i - off);
        return Some(i);
      }
      assert s[..i + 1 - off] == s[..i - off] + [buf[i]];
      i := i + 1;
    }
    assert i - off == |s|;
    assert s[..|s|] == s;
    return None;
  }

  /** Where the results are in the buffer. */
  datatype Result = Failed | Parsed(family: Family, node: nat, service: Option<nat>)

  /** `*ptr = 0` for the first `c` of the C string at `off`, if there is one. */
  method CutAt(buf: array<char>, off: nat, c: char) returns (r: Option<nat>)
    requires off <= buf.Length && NUL in buf[off..] && c != NUL
    modifies buf
    ensures r.None? <==> c !in CStr(old(buf[..]), off)
    ensures r.None? ==> buf[..] == old(buf[..])
    ensures r.Some? ==> off <= r.value && r.value + 1 < buf.Length && buf[..] == old(buf[..])[r.value := NUL]
    ensures r.Some? ==> r.value == off + |Before(CStr(old(buf[..]), off), c)|
    ensures CStr(buf[..], off) == Before(CStr(old(buf[..]), off), c)
    ensures buf.Length > 0 && old(buf[buf.Length - 1]) == NUL ==> buf[buf.Length - 1] == NUL
    ensures r.Some? ==> CStr(buf[..], r.value + 1) == After(CStr(old(buf[..]), off), c)
  {
    hide CStr, Before, After;
    r := StrChr(buf, off, c);
    ghost var s := buf[..];
    if r.Some? {
      CutFacts(s, off, c);
      buf[r.value] := NUL;
      assert buf[..] == s[r.value := NUL];
    } else {
      Whole(CStr(s, off), c);
    }
  }

  lemma CutFacts(s: string, off: nat, c: char)
    requires off <= |s| && c in CStr(s, off)
    ensures var i := off + |Before(CStr(s, off), c)|;
            && i < |s|
            && CStr(s[i := NUL], off) == Before(CStr(s, off), c)
            && CStr(s[i := NUL], i + 1) == After(CStr(s, off), c)
  {
    hide CStr;
    var i := off + |Before(CStr(s, off), c)|;
    CStrInside(s, off);
    CutThere(s, off, i);
    Behind(s, off, i + 1 - off);
    CutElsewhere(s, i + 1, i);
  }

  lemma CStrInside(s: string, off: nat)
    requires off <= |s|
    ensures off + |CStr(s, off)| <= |s|
  {}

  lemma Whole(s: string, c: char)
    requires c !in s
    ensures Before(s, c) == s
  {
    assert s[..|s|] == s;
    BeforeIs(s, c, |s|);
  }

  /** The C string that starts inside another one. */
  lemma Behind(s: string, off: nat, k: nat)
    requires off <= |s| && k <= |CStr(s, off)|
    ensures CStr(s, off + k) == CStr(s, off)[k..]
  {
    var n := |CStr(s, off)|;
    assert s[off..][..n] == CStr(s, off);
    assert s[off + k..] == s[off..][k..];
    assert s[off + k..][..n - k] == CStr(s, off)[k..];
    BeforeIs(s[off + k..], NUL, n - k);
  }

  lemma Terminated(s: string, off: nat)
    requires off < |s| && s[|s| - 1] == NUL
    ensures NUL in s[off..]
  {
    assert s[off..][|s| - 1 - off] == NUL;
  }

  /** The results, as C strings of the buffer: they are there, they are terminated, and the service
      begins behind the end of the node. */
  ghost predicate Holds(buf: string, r: Result, a: Address) {
    && r.Parsed? && r.family == a.family
    && r.node < |buf| && NUL in buf[r.node..] && CStr(buf, r.node) == a.node
    && (r.service.Some? <==> a.service.Some?)
    && (r.service.Some? ==>
          && r.node + |a.node| < r.service.value < |buf|
          && NUL in buf[r.service.value..] && CStr(buf, r.service.value) == a.service.value)
  }

  /** ipaddress_parse. The comparisons with the schemes stop at the end of a shorter URI. */
  method Parse(uri: string) returns (r: Result, buf: array<char>)
    requires NUL !in uri
    ensures r.Failed? <==> ParseSpec(uri).None?
    ensures r.Parsed? ==> buf.Length == |uri| + 1 && Holds(buf[..], r, ParseSpec(uri).value)
    ensures r.Failed? <==>
              || (!("ip4://" <= uri) && !("ip6://" <= uri) && !("ip://" <= uri) && !("unix://" <= uri))
              || ("ip6://[" <= uri && ']' !in uri[7..])
    ensures r.Parsed? && "ip4://" <= uri ==> r.family == Inet && r.node == 6
    ensures r.Parsed? && "ip6://" <= uri ==> r.family == Inet6 && r.node == if "ip6://[" <= uri then 7 else 6
    ensures r.Parsed? && "ip://" <= uri ==> r.family == Unspec && r.node == 5
    ensures r.Parsed? && "unix://" <= uri ==> r.family == Unix && r.node == 7 && r.service == None
  {
    FamilyOf(uri);
    BracketOf(uri);
    Schemes(uri);
    hide Split, Service, Scheme;
    var dup := uri + [NUL];
    buf := new char[|dup|](i requires 0 <= i < |dup| => dup[i]);
    assert buf[..] == dup;
    var scheme := Scheme(uri);
    if scheme.None? {
      return Failed, buf;
    }
    var (family, n) := scheme.value;
    Duplicated(uri, n);
    if family == Unix {
      Terminated(buf[..], n);
      UnixMeans(uri);
      return Parsed(family, n, None), buf;
    }
    r := ParseHost(buf, family, n);
  }

  lemma Duplicated(uri: string, n: nat)
    requires n <= |uri| && NUL !in uri
    ensures CStr(uri + [NUL], n) == uri[n..]
  {
    var rest := uri[n..];
    assert (uri + [NUL])[n..] == rest + [NUL];
    assert (rest + [NUL])[..|rest|] == rest && (rest + [NUL])[|rest|] == NUL;
    BeforeIs(rest + [NUL], NUL, |rest|);
  }

  /** The part of ipaddress_parse that cuts internet addresses. */
  method ParseHost(buf: array<char>, family: Family, start: nat) returns (r: Result)
    requires start < buf.Length && buf[buf.Length - 1] == NUL && family != Unix
    modifies buf
    ensures r.Failed? <==> Split(family, CStr(old(buf[..]), start)).None?
    ensures r.Parsed? ==> Holds(buf[..], r, Split(family, CStr(old(buf[..]), start)).value)
    ensures var rest := CStr(old(buf[..]), start);
            var bracket := family == Inet6 && rest != [] && rest[0] == '[';
            && (r.Failed? <==> bracket && ']' !in rest[1..])
            && (r.Parsed? ==> r.family == family && r.node == if bracket then start + 1 else start)
  {
    hide Before, After, Holds, Service, Split;
    SplitHost(family, CStr(buf[..], start));
    FirstChar(buf[..], start);
    if family == Inet6 && buf[start] == '[' {
      r := CutBracket(buf, start);
    } else {
      r := CutHost(buf, family, start, start);
    }
  }

  /** The node in brackets at `start`. */
  method CutBracket(buf: array<char>, start: nat) returns (r: Result)
    requires start < buf.Length && buf[buf.Length - 1] == NUL
    requires CStr(buf[..], start) != [] && CStr(buf[..], start)[0] == '['
    modifies buf
    ensures var rest := CStr(old(buf[..]), start)[1..];
            && (r.Failed? <==> ']' !in rest)
            && (r.Parsed? ==>
                  && r.family == Inet6 && r.node == start + 1
                  && Holds(buf[..], r, Address(Inet6, Before(Before(rest, ']'), '/'), Service(After(rest, ']')))))
  {
    hide Before, After, Holds, Service;
    var node := start + 1;
    Behind(buf[..], start, 1);
    CStrEnds(buf[..], start);
    Terminated(buf[..], node);
    hide CStr;
    var at := CutAt(buf, node, ']');
    if at.None? {
      return Failed;
    }
    r := CutHost(buf, Inet6, node, at.value + 1);
  }

  lemma CStrEnds(s: string, off: nat)
    requires off < |s| && s[|s| - 1] == NUL
    ensures off + |CStr(s, off)| < |s|
  {
    Terminated(s, off);
  }

  lemma SplitHost(family: Family, rest: string)
    requires family != Unix
    ensures var bracket := family == Inet6 && rest != [] && rest[0] == '[';
            if bracket && ']' !in rest[1..] then Split(family, rest) == None
            else
              var host := if bracket then Before(rest[1..], ']') else Before(rest, ':');
              var tail := if bracket then After(rest[1..], ']') else rest;
              Split(family, rest) == Some(Address(family, Before(host, '/'), Service(tail)))
  {
    hide Before, After, Service;
  }

  lemma FirstChar(s: string, off: nat)
    requires off < |s|
    ensures s[off] != NUL <==> CStr(s, off) != []
    ensures s[off] != NUL ==> CStr(s, off)[0] == s[off]
  {}

  /** Service behind the first ':' from `ptr` on; then both end at the first '/'. */
  method CutHost(buf: array<char>, family: Family, node: nat, ptr: nat) returns (r: Result)
    requires node < buf.Length && ptr < buf.Length && buf[buf.Length - 1] == NUL
    requires ptr == node || node + |CStr(buf[..], node)| < ptr
    modifies buf
    ensures r.Parsed?
    ensures var host, tail := CStr(old(buf[..]), node), CStr(old(buf[..]), ptr);
            Holds(buf[..], r,
              Address(family, Before(if ptr == node then Before(host, ':') else host, '/'), Service(tail)))
    ensures r.family == family && r.node == node
  {
    hide CStr, Before, After;
    var service := CutService(buf, node, ptr);
    CutSlashes(buf, node, service);
    Terminated(buf[..], node);
    if service.Some? {
      Terminated(buf[..], service.value);
    }
    r := Parsed(family, node, service);
  }

  method CutService(buf: array<char>, node: nat, ptr: nat) returns (service: Option<nat>)
    requires node < buf.Length && ptr < buf.Length && buf[buf.Length - 1] == NUL
    requires ptr == node || node + |CStr(buf[..], node)| < ptr
    modifies buf
    ensures buf[buf.Length - 1] == NUL
    ensures var host, tail := CStr(old(buf[..]), node), CStr(old(buf[..]), ptr);
            && (service.Some? <==> ':' in tail)
            && CStr(buf[..], node) == (if ptr == node then Before(host, ':') else host)
            && (service.Some? ==>
                  && node + |CStr(buf[..], node)| < service.value < buf.Length
                  && CStr(buf[..], service.value) == After(tail, ':'))
  {
    hide CStr, Before, After;
    Terminated(buf[..], ptr);
    ghost var s := buf[..];
    var at := CutAt(buf, ptr, ':');
    service := None;
    if at.Some? {
      service := Some(at.value + 1);
      if ptr != node {
        CutElsewhere(s, node, at.value);
      }
    }
  }

  method CutSlashes(buf: array<char>, node: nat, service: Option<nat>)
    requires node < buf.Length && buf[buf.Length - 1] == NUL
    requires service.Some? ==> node + |CStr(buf[..], node)| < service.value < buf.Length
    modifies buf
    ensures buf[buf.Length - 1] == NUL
    ensures CStr(buf[..], node) == Before(CStr(old(buf[..]), node), '/')
    ensures service.Some? ==>
              && node + |CStr(buf[..], node)| < service.value
              && CStr(buf[..], service.value) == Before(CStr(old(buf[..]), service.value), '/')
  {
    hide CStr, Before, After;
    Terminated(buf[..], node);
    ghost var s := buf[..];
    var at := CutAt(buf, node, '/');
    if service.Some? {
      if at.Some? {
        CutElsewhere(s, service.value, at.value);
      }
      Terminated(buf[..], service.value);
      s := buf[..];
      at := CutAt(buf, service.value, '/');
      if at.Some? {
        CutElsewhere(s, node, at.value);
      }
    }
  }

  // ---- printing and parsing ----

  function Prefix(f: Family): string {
    match f
    case Inet => IP4
    case Inet6 => IP6
    case Unspec => IP
    case Unix => UNIX
  }

  function ServicePart(a: Address): string {
    if a.service.Some? then ":" + a.service.value else ""
  }

  function HostPart(a: Address, bracketed: bool): string {
    if a.family == Unix then a.node
    else if a.family == Inet6 && bracketed then "[" + a.node + "]" + ServicePart(a)
    else a.node + ServicePart(a)
  }

  /** A URI for an address; `bracketed` is the form `ip6://[node]`. */
  function Print(a: Address, bracketed: bool): string {
    Prefix(a.family) + HostPart(a, bracketed)
  }

  /** The characters that a form does not allow. */
  predicate Clean(a: Address, bracketed: bool) {
    if a.family == Unix then a.service.None?
    else
      && (a.service.Some? ==> '/' !in a.service.value)
      && '/' !in a.node
      && (if a.family == Inet6 && bracketed then ']' !in a.node
          else ':' !in a.node && (a.family == Inet6 ==> a.node == [] || a.node[0] != '['))
  }

  lemma ParsePrinted(a: Address, bracketed: bool)
    ensures ParseSpec(Print(a, bracketed)) == Split(a.family, HostPart(a, bracketed))
  {
    hide Split, HostPart, Before, After;
    var uri, host := Print(a, bracketed), HostPart(a, bracketed);
    assert uri[|Prefix(a.family)|..] == host;
    match a.family
    case Inet => assert uri[..6] == IP4;
    case Inet6 => assert uri[..6] == IP6 && uri[2] == '6';
    case Unspec => assert uri[..5] == IP && uri[2] == ':';
    case Unix => assert uri[..7] == UNIX && uri[0] == 'u';
  }

  lemma BeforeConcat(s: string, t: string, c: char)
    ensures c in s ==> |Before(s + t, c)| < |s|
    ensures c !in s ==> Before(s + [c] + t, c) == s && After(s + [c] + t, c) == t
    ensures c !in s ==> Before(s, c) == s
  {
    if c in s {
      var i := |Before(s, c)|;
      assert (s + t)[..i] == Before(s, c) && (s + t)[i] == c;
      BeforeIs(s + t, c, i);
    } else {
      var u := s + [c] + t;
      assert u[..|s|] == s && u[|s|] == c;
      BeforeIs(u, c, |s|);
      Whole(s, c);
    }
  }

  /** The part behind a host that ends before its service. */
  lemma ServiceOf(a: Address, s: string)
    requires ':' !in s
    ensures Service(s + ServicePart(a))
         == if a.service.Some? then Some(Before(a.service.value, '/')) else None
    ensures Before(s + ServicePart(a), ':') == s
  {
    hide Before, After;
    if a.service.Some? {
      BeforeConcat(s, a.service.value, ':');
      assert s + ServicePart(a) == s + [':'] + a.service.value;
      assert ':' in s + [':'] + a.service.value;
    } else {
      assert s + ServicePart(a) == s;
      Whole(s, ':');
    }
  }

  lemma UncutIff(s: string, c: char)
    ensures Before(s, c) == s <==> c !in s
  {
    if c !in s {
      Whole(s, c);
    }
  }

  lemma PlainIff(a: Address)
    ensures Before(Before(a.node + ServicePart(a), ':'), '/') == a.node
         && Service(a.node + ServicePart(a)) == a.service
       <==> '/' !in a.node && ':' !in a.node && (a.service.Some? ==> '/' !in a.service.value)
  {
    if ':' in a.node {
      BeforeConcat(a.node, ServicePart(a), ':');
    } else {
      ServiceOf(a, a.node);
      UncutIff(a.node, '/');
      if a.service.Some? {
        UncutIff(a.service.value, '/');
      }
    }
  }

  lemma BracketIff(a: Address)
    ensures var rest := a.node + "]" + ServicePart(a);
            ']' in rest
            && (Before(Before(rest, ']'), '/') == a.node && Service(After(rest, ']')) == a.service
                <==> '/' !in a.node && ']' !in a.node && (a.service.Some? ==> '/' !in a.service.value))
  {
    var rest := a.node + "]" + ServicePart(a);
    assert rest[|a.node|] == ']';
    if ']' in a.node {
      BeforeConcat(a.node, "]" + ServicePart(a), ']');
      assert rest == a.node + ("]" + ServicePart(a));
    } else {
      BeforeConcat(a.node, ServicePart(a), ']');
      ServiceOf(a, "");
      assert "" + ServicePart(a) == ServicePart(a);
      UncutIff(a.node, '/');
      if a.service.Some? {
        UncutIff(a.service.value, '/');
      }
    }
  }

  /** Parsing a printed address gives it back exactly when node and service are free of the
      characters that delimit them in that form. */
  lemma PrintParseIff(a: Address, bracketed: bool)
    requires NUL !in a.node && (a.service.Some? ==> NUL !in a.service.value)
    ensures ParseSpec(Print(a, bracketed)) == Some(a) <==> Clean(a, bracketed)
  {
    hide Print, Split, HostPart, Clean;
    ParsePrinted(a, bracketed);
    if a.family == Unix {
      UnixIff(a, bracketed);
    } else if a.family == Inet6 && bracketed {
      BracketedIff(a);
    } else {
      UnbracketedIff(a, bracketed);
    }
  }

  lemma UnixIff(a: Address, bracketed: bool)
    requires a.family == Unix
    ensures Split(Unix, HostPart(a, bracketed)) == Some(a) <==> Clean(a, bracketed)
  {}

  lemma BracketedIff(a: Address)
    requires a.family == Inet6
    ensures Split(Inet6, HostPart(a, true)) == Some(a) <==> Clean(a, true)
  {
    hide Before, After, Service, ServicePart;
    BracketIff(a);
    assert HostPart(a, true)[1..] == a.node + "]" + ServicePart(a);
    assert HostPart(a, true)[0] == '[';
  }

  lemma UnbracketedIff(a: Address, bracketed: bool)
    requires a.family != Unix && (a.family == Inet6 ==> !bracketed)
    ensures Split(a.family, HostPart(a, bracketed)) == Some(a) <==> Clean(a, bracketed)
  {
    var rest := a.node + ServicePart(a);
    if a.family == Inet6 && a.node != [] && a.node[0] == '[' {
      BracketFirst(a);
    } else {
      hide Before, After, Service;
      PlainIff(a);
      assert rest == [] || rest[0] == if a.node == [] then ':' else a.node[0];
    }
  }

  lemma BracketFirst(a: Address)
    requires a.family == Inet6 && a.node != [] && a.node[0] == '['
    ensures Split(Inet6, a.node + ServicePart(a)) != Some(a)
  {
  }
}
