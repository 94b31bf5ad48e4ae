/** ldap_escape_query: the escaping of LDAP filter values (section 3 of RFC 4515) in two passes. */
module LdapEscape {
  import opened Memory

  const BACKSLASH: Byte := 92

  /** '*', '(', ')', '\\' and NUL. */
  predicate Special(c: Byte) {
    c == 42 || c == 40 || c == 41 || c == BACKSLASH || c == 0
  }

  /** A digit of HEX. */
  function HexDigit(n: nat): Byte
    requires n < 16
  {
    if n < 10 then 48 + n else 87 + n
  }

  function EscapeByte(c: Byte): (r: seq<Byte>)
    ensures |r| == if Special(c) then 3 else 1
  {
    if Special(c) then [BACKSLASH, HexDigit(c / 16), HexDigit(c % 16)] else [c]
  }

  function Escape(s: seq<Byte>): seq<Byte> {
    if s == [] then [] else EscapeByte(s[0]) + Escape(s[1..])
  }

  // ---- reading it back ----

  function HexValue(c: Byte): Option<nat> {
    if 48 <= c <= 57 then Some(c - 48)
    else if 97 <= c <= 102 then Some(c - 87)
    else if 65 <= c <= 70 then Some(c - 55)
    else None
  }

  /** The value of an assertion value of RFC 4515, if it is one. */
  function Unescape(s: seq<Byte>): Option<seq<Byte>> {
    if s == [] then Some([])
    else if s[0] != BACKSLASH then
      if Special(s[0]) then None else Prepend([s[0]], Unescape(s[1..]))
    else if |s| < 3 || HexValue(s[1]).None? || HexValue(s[2]).None? then None
    else Prepend([HexValue(s[1]).value * 16 + HexValue(s[2]).value], Unescape(s[3..]))
  }

  function Prepend(a: seq<Byte>, o: Option<seq<Byte>>): Option<seq<Byte>> {
    if o.Some? then Some(a + o.value) else None
  }

  /** Every byte string survives, and what is sent is a valid assertion value. */
  lemma {:induction false} UnescapeOf(s: seq<Byte>)
    ensures Unescape(Escape(s)) == Some(s)
  {
    if s != [] {
      UnescapeOf(s[1..]);
      var e := Escape(s);
      assert e[|EscapeByte(s[0])|..] == Escape(s[1..]);
      assert s == [s[0]] + s[1..];
      if Special(s[0]) {
        assert e[0] == BACKSLASH && e[1] == HexDigit(s[0] / 16) && e[2] == HexDigit(s[0] % 16);
      } else {
        assert e[0] == s[0];
      }
    }
  }

  /** No '*', '(', ')' or NUL is left. */
  lemma {:induction false} EscapeIsSafe(s: seq<Byte>)
    ensures 42 !in Escape(s) && 40 !in Escape(s) && 41 !in Escape(s) && 0 !in Escape(s)
  {
    if s != [] {
      EscapeIsSafe(s[1..]);
    }
  }

  /** '*', '(', ')', '\\' and NUL become a backslash and two digits of HEX, no other byte changes. */
  lemma EscapeOne(c: Byte)
    ensures Escape([c]) == if c in {42, 40, 41, 92, 0}
                           then [92, "0123456789abcdef"[c / 16] as int, "0123456789abcdef"[c % 16] as int]
                           else [c]
  {
    assert [c][1..] == [] && EscapeByte(c) + [] == EscapeByte(c);
    hide EscapeByte;
    assert EscapeByte(c) == Escape([c]);
    EscapeByteIs(c);
  }

  lemma EscapeByteIs(c: Byte)
    ensures EscapeByte(c) == if c in {42, 40, 41, 92, 0}
                             then [92, "0123456789abcdef"[c / 16] as int, "0123456789abcdef"[c % 16] as int]
                             else [c]
  {}

  /** A string is escaped byte by byte. */
  lemma {:induction false} EscapeConcat(s: seq<Byte>, t: seq<Byte>)
    ensures Escape(s + t) == Escape(s) + Escape(t)
  {
    hide EscapeByte;
    if s == [] {
      assert s + t == t && [] + Escape(t) == Escape(t);
    } else {
      EscapeConcat(s[1..], t);
      assert (s + t)[0] == s[0] && (s + t)[1..] == s[1..] + t;
      Assoc(EscapeByte(s[0]), Escape(s[1..]), Escape(t));
    }
  }

  lemma Assoc(a: seq<Byte>, b: seq<Byte>, c: seq<Byte>)
    ensures a + b + c == a + (b + c)
  {}

  lemma EscapeSnoc(s: seq<Byte>, c: Byte)
    ensures Escape(s + [c]) == Escape(s) + EscapeByte(c)
  {
    EscapeConcat(s, [c]);
    assert [c][1..] == [] && EscapeByte(c) + [] == EscapeByte(c);
  }

  lemma EscapeNext(s: seq<Byte>, i: nat)
    requires i < |s|
    ensures Escape(s[..i + 1]) == Escape(s[..i]) + EscapeByte(s[i])
  {
    assert s[..i + 1] == s[..i] + [s[i]];
    EscapeSnoc(s[..i], s[i]);
  }

  // ---- the two passes ----

  /** The loop with `d == NULL`. */
  method CountPass(s: seq<Byte>) returns (size: nat)
    ensures size == |Escape(s)|
  {
    size := 0;
    for i := 0 to |s|
      invariant size == |Escape(s[..i])|
    {
      EscapeNext(s, i);
      if Special(s[i]) {
        size := size + 3;
      } else {
        size := size + 1;
      }
    }
    assert s[..|s|] == s;
  }

  /** The loop with `d == buf`: `end` is the final `d`, unless a store would not hit the block. */
  method WritePass(s: seq<Byte>, buf: array<Byte>) returns (end: Option<nat>)
    modifies buf
    ensures end.Some? <==> |Escape(s)| <= buf.Length
    ensures end.Some? ==> end.value == |Escape(s)| && buf[..end.value] == Escape(s)
  {
    var d := 0;
    for i := 0 to |s|
      invariant d == |Escape(s[..i])| <= buf.Length && buf[..d] == Escape(s[..i])
    {
      EscapeNext(s, i);
      EscapeGrows(s, i + 1);
      var e := EscapeByte(s[i]);
      if buf.Length < d + |e| {
        return None;
      }
      Memcpy(buf, d, e);
      d := d + |e|;
    }
    assert s[..|s|] == s;
    end := Some(d);
  }

  lemma EscapeGrows(s: seq<Byte>, i: nat)
    requires i <= |s|
    ensures |Escape(s[..i])| <= |Escape(s)|
    decreases |s| - i
  {
    if i < |s| {
      EscapeNext(s, i);
      EscapeGrows(s, i + 1);
    } else {
      assert s[..i] == s;
    }
  }

  // ---- the function ----

  /** `Outside`: a load or store has left its object. */
  datatype Outcome = Returned(s: seq<Byte>) | Outside

  /** The bytes that the caller has asked to escape; `mem` is what can be read from `s` on. */
  function Input(mem: seq<Byte>, count: int): (s: seq<Byte>)
    requires count <= |mem|
    ensures s <= mem
    ensures count >= 0 ==> |s| == count
    ensures count < 0 && 0 in mem ==> 0 !in s && |s| < |mem| && mem[|s|] == 0
  {
    if count < 0 then CString(mem) else mem[..count]
  }

  /** As intended: both passes read the input. The block has exactly the right size. */
  method EscapeQueryRewound(mem: seq<Byte>, count: int) returns (buf: array<Byte>)
    requires count <= |mem| && (count < 0 ==> 0 in mem)
    ensures buf[..] == Escape(Input(mem, count)) + [0]
    ensures CString(buf[..]) == Escape(Input(mem, count))
  {
    var input := Input(mem, count);
    var size := CountPass(input);
    buf := new Byte[size + 1];
    var end := WritePass(input, buf);
    buf[end.value] := 0;
    assert buf[..] == Escape(input) + [0] + [];
    EscapeIsSafe(input);
    CStringOf(Escape(input), []);
  }

  /** As written: the first pass leaves `s` behind the input, and the second one goes on from there. */
  method EscapeQuery(mem: seq<Byte>, count: int) returns (o: Outcome)
    requires count <= |mem| && (count < 0 ==> 0 in mem)
    ensures o == AsWritten(mem, count)
  {
    hide Escape;
    var cnt := |Input(mem, count)|;
    var s := 0;
    var size := CountPass(mem[s..cnt]);
    assert mem[s..cnt] == Input(mem, count);
    s := s + cnt;
    var buf := new Byte[size + 1];
    if |mem| < s + cnt {
      return Outside;
    }
    var end := WritePass(mem[s..s + cnt], buf);
    if end.None? || end.value == buf.Length {
      return Outside;
    }
    buf[end.value] := 0;
    o := Returned(buf[..end.value]);
  }

  /** The escape of what lies behind the input, if that exists and fits. */
  function AsWritten(mem: seq<Byte>, count: int): Outcome
    requires count <= |mem|
  {
    var n := |Input(mem, count)|;
    if |mem| < n + n then Outside
    else if |Escape(Input(mem, count))| < |Escape(mem[n..n + n])| then Outside
    else Returned(Escape(mem[n..n + n]))
  }

  /** It returns the escape of the bytes behind the input, unless it reads outside the memory or
      writes outside its block. */
  lemma AsWrittenMeans(mem: seq<Byte>, count: int)
    requires count <= |mem|
    ensures var n := |Input(mem, count)|;
            if n + n <= |mem| && |Escape(mem[n..n + n])| <= |Escape(mem[..n])|
            then AsWritten(mem, count).Returned? && Unescape(AsWritten(mem, count).s) == Some(mem[n..n + n])
            else AsWritten(mem, count) == Outside
  {
    hide Escape, Unescape;
    var n := |Input(mem, count)|;
    assert mem[..n] == Input(mem, count);
    if n + n <= |mem| {
      UnescapeOf(mem[n..n + n]);
    }
  }

  lemma EscapeInjective(s: seq<Byte>, t: seq<Byte>)
    requires Escape(s) == Escape(t)
    ensures s == t
  {
    UnescapeOf(s);
    UnescapeOf(t);
  }

  /** The function as written escapes its input exactly when a copy of the input follows it. */
  lemma AsWrittenIff(mem: seq<Byte>, count: int)
    requires count <= |mem|
    ensures var s := Input(mem, count);
            AsWritten(mem, count) == Returned(Escape(s)) <==> |s| + |s| <= |mem| && mem[|s|..|s| + |s|] == s
  {
    hide Escape;
    var s := Input(mem, count);
    if |s| + |s| <= |mem| && Escape(mem[|s|..|s| + |s|]) == Escape(s) {
      EscapeInjective(mem[|s|..|s| + |s|], s);
    }
  }

  /** So for C strings (a negative count) it is right for the empty string only. */
  lemma AsWrittenStringsIff(mem: seq<Byte>, count: int)
    requires count < 0 && 0 in mem
    ensures AsWritten(mem, count) == Returned(Escape(Input(mem, count))) <==> Input(mem, count) == []
  {
    var s := Input(mem, count);
    AsWrittenIff(mem, count);
    if s != [] && |s| + |s| <= |mem| {
      assert mem[|s|..|s| + |s|][0] == 0;
      assert s[0] != 0;
    }
  }

  /** For example, the query "a" with nothing behind its NUL is not returned as "a". */
  lemma AsWrittenFailsOnA()
    ensures Input([97, 0], -1) == [97] == Escape([97]) && AsWritten([97, 0], -1) != Returned([97])
  {
    assert [97, 0][1..] == [0] && CString([0]) == [];
    assert CString([97, 0]) == [97] + CString([97, 0][1..]);
    assert Input([97, 0], -1) == [97];
    assert Escape([97]) == EscapeByte(97) + Escape([97][1..]);
    AsWrittenStringsIff([97, 0], -1);
  }
}
