/** The growable buffer of strbuf.h, for any SIZE_MAX above 17. */
module StrBuf {
  import opened Memory

  class StrBuf {
    const sizeMax: nat
    var len: nat
    var alloc: nat
    var b: array?<Byte>

    ghost predicate Valid()
      reads this, b
    {
      && 17 < sizeMax
      && len <= alloc <= sizeMax
      && |Bytes(b)| == alloc
    }

    /** The bytes appended so far. */
    ghost function Content(): seq<Byte>
      requires Valid()
      reads this, b
    {
      Bytes(b)[..len]
    }

    /** strbuf_init without a size hint, also INIT_STRBUF. */
    constructor (sizeMax: nat)
      requires 17 < sizeMax
      ensures Valid() && Content() == [] && b == null && this.sizeMax == sizeMax
    {
      this.sizeMax := sizeMax;
      len, alloc, b := 0, 0, null;
    }

    /** The growth of strbuf_allocate. */
    static function Extra(l: nat): nat {
      l * 3 / 2 + 8
    }

    /** No intermediate result of `l * 3 / 2 + 8` wraps once `l <= SIZE_MAX / 3`. */
    lemma ExtraExact(l: nat)
      requires 17 < sizeMax && l <= sizeMax / 3
      ensures AddSize(sizeMax, MulSize(sizeMax, l, 3) / 2, 8) == Extra(l) <= sizeMax
    {
      SizeExact(sizeMax, l, 3);
      SizeExact(sizeMax, l * 3 / 2, 8);
    }

    /** Makes room for `l` more bytes. The comment in the source claims that only `l * 3` can
        overflow: every size below is computed modulo SIZE_MAX + 1, and none of them wraps. */
    method Allocate(l: nat) returns (st: Status)
      requires Valid() && l <= sizeMax
      modifies this
      ensures st == TooLarge <==>
                || l > sizeMax / 3
                || old(len) > sizeMax - l
                || (old(len) + l > old(alloc) && old(len) + Extra(l) > sizeMax)
      ensures st.Done? ==> Valid() && len == old(len) && Content() == old(Content()) && len + l <= alloc
      ensures st.Done? ==>
                if old(len) + l <= old(alloc) then b == old(b) && alloc == old(alloc)
                else fresh(b) && alloc == len + Extra(l)
    {
      if l > sizeMax / 3 {
        return TooLarge;
      }
      if len > sizeMax - l {
        return TooLarge;
      }
      st := Done;
      SizeExact(sizeMax, len, l);
      if AddSize(sizeMax, len, l) > alloc {
        var extra := AddSize(sizeMax, MulSize(sizeMax, l, 3) / 2, 8);
        ExtraExact(l);
        if len > sizeMax - extra {
          return TooLarge;
        }
        SizeExact(sizeMax, len, extra);
        alloc := AddSize(sizeMax, len, extra);
        var nb;
        st, nb := Xrealloc(b, alloc);
        b := nb;
      }
    }

    /** Gives back what is not needed for the content and `extra` more bytes. */
    method ShrinkTo(extra: nat) returns (st: Status)
      requires Valid() && extra <= sizeMax
      modifies this
      ensures st == TooLarge <==> old(len) + extra > sizeMax
      ensures st.Done? ==> Valid() && len == old(len) && Content() == old(Content())
      ensures st.Done? ==> alloc == Min(old(alloc), len + extra) && Bytes(b) == old(Bytes(b))[..alloc]
      ensures st.Done? ==> if old(alloc) <= len + extra then b == old(b) else fresh(b)
    {
      if len > sizeMax - extra {
        return TooLarge;
      }
      st := Done;
      SizeExact(sizeMax, len, extra);
      if alloc > AddSize(sizeMax, len, extra) {
        alloc := AddSize(sizeMax, len, extra);
        var nb;
        st, nb := Xrealloc(b, alloc);
        assert st.Done? ==> nb[..] == old(Bytes(b))[..alloc];
        b := nb;
      }
    }

    method Shrink() returns (st: Status)
      requires Valid()
      modifies this
      ensures st != TooLarge
      ensures st.Done? ==> Valid() && Content() == old(Content()) && alloc == len
      ensures st.Done? ==> b == old(b) || fresh(b)
    {
      st := ShrinkTo(0);
    }

    method Clear()
      requires Valid()
      modifies this`len
      ensures Valid() && Content() == []
    {
      len := 0;
    }

    method AppendChar(c: Byte) returns (st: Status)
      requires Valid()
      modifies this, b
      ensures st.Done? ==> Valid() && Content() == old(Content()) + [c]
      ensures st.Done? ==> b == old(b) || fresh(b)
    {
      st := Allocate(1);
      if st.Done? {
        b[len] := c;
        len := len + 1;
      }
    }

    /** Bytes of the buffer itself may be appended if there is room: growing it would release them. */
    ghost predicate MayAppend(s: array?<Byte>, l: nat)
      reads this
    {
      s == null || s != b || (l <= len && len + l <= alloc)
    }

    /** Appends the `l` bytes at `s`. */
    method AppendBuf(s: array?<Byte>, l: nat) returns (st: Status)
      requires Valid() && l <= |Bytes(s)| && l <= sizeMax && MayAppend(s, l)
      modifies this, b
      ensures st.Done? ==> Valid() && Content() == old(Content()) + old(Bytes(s))[..l]
      ensures st.Done? ==> b == old(b) || fresh(b)
    {
      st := Allocate(l);
      if st.Done? && l > 0 {
        Memcpy(b, len, s[..l]);
        len := len + l;
      }
    }

    method AppendStr(s: array<Byte>) returns (st: Status)
      requires Valid() && 0 in s[..] && s.Length <= sizeMax && MayAppend(s, |CString(s[..])|)
      modifies this, b
      ensures st.Done? ==> Valid() && Content() == old(Content()) + old(CString(s[..]))
      ensures st.Done? ==> b == old(b) || fresh(b)
    {
      st := AppendBuf(s, |CString(s[..])|);
    }

    method AppendStrBuf(src: StrBuf) returns (st: Status)
      requires Valid() && src.Valid() && src.len <= sizeMax && MayAppend(src.b, src.len)
      modifies this, b
      ensures st.Done? ==> Valid() && Content() == old(Content()) + old(src.Content())
      ensures st.Done? ==> b == old(b) || fresh(b)
    {
      st := AppendBuf(src.b, src.len);
    }

    /** Puts a NUL after the content, which does not become part of it. */
    method ToStr(optimize: bool) returns (st: Status)
      requires Valid()
      modifies this, b
      ensures st.Done? ==> Valid() && len == old(len) && Content() == old(Content())
      ensures st.Done? ==> len < alloc && Bytes(b)[len] == 0 && (optimize ==> alloc == len + 1)
      ensures st.Done? ==> b == old(b) || fresh(b)
    {
      st := Allocate(1);
      if st.Done? {
        b[len] := 0;
        if optimize {
          st := ShrinkTo(1);
        }
      }
    }

    /** Hands the block over to the caller and leaves an empty buffer. */
    method Xfer() returns (st: Status, res: array<Byte>, l: nat)
      requires Valid()
      modifies this
      ensures Valid() && Content() == [] && b == null
      ensures st != TooLarge && l == old(len)
      ensures st.Done? ==> if old(b) != null then res == old(b) else fresh(res) && res.Length == 1
    {
      var old_ := b;
      l := len;
      len, alloc, b := 0, 0, null;
      if old_ != null {
        return Done, old_, l;
      }
      st, res := Xrealloc(null, 1);
    }
  }

  // ---- runs ----

  datatype Edit = AppendChar(c: Byte) | AppendBytes(s: seq<Byte>) | Clear | Shrink | ToStr(optimize: bool)

  function Edited(s: seq<Byte>, e: Edit): seq<Byte> {
    match e
    case AppendChar(c) => s + [c]
    case AppendBytes(t) => s + t
    case Clear => []
    case Shrink => s
    case ToStr(_) => s
  }

  function EditedAll(s: seq<Byte>, es: seq<Edit>): seq<Byte>
    decreases |es|
  {
    if es == [] then s else EditedAll(Edited(s, es[0]), es[1..])
  }

  /** Clear empties the content, the appending edits append, and the others leave it alone. */
  lemma {:induction false} EditsMean(s: seq<Byte>, c: Byte, u: seq<Byte>, optimize: bool, es: seq<Edit>)
    ensures EditedAll(s, []) == s
    ensures EditedAll(s, es + [Edit.AppendChar(c)]) == EditedAll(s, es) + [c]
    ensures EditedAll(s, es + [AppendBytes(u)]) == EditedAll(s, es) + u
    ensures EditedAll(s, es + [Edit.Clear]) == []
    ensures EditedAll(s, es + [Edit.Shrink]) == EditedAll(s, es)
    ensures EditedAll(s, es + [Edit.ToStr(optimize)]) == EditedAll(s, es)
  {
    EditedSnoc(s, es, Edit.AppendChar(c));
    EditedSnoc(s, es, AppendBytes(u));
    EditedSnoc(s, es, Edit.Clear);
    EditedSnoc(s, es, Edit.Shrink);
    EditedSnoc(s, es, Edit.ToStr(optimize));
    hide EditedAll;
    assert EditedAll(s, []) == s by { NoEdits(s); }
  }

  lemma NoEdits(s: seq<Byte>)
    ensures EditedAll(s, []) == s
  {}

  lemma {:induction false} EditedSnoc(s: seq<Byte>, es: seq<Edit>, e: Edit)
    ensures EditedAll(s, es + [e]) == Edited(EditedAll(s, es), e)
    decreases |es|
  {
    hide Edited;
    if es == [] {
      assert [] + [e] == [e] && [e][1..] == [];
    } else {
      EditedSnoc(Edited(s, es[0]), es[1..], e);
      assert (es + [e])[0] == es[0] && (es + [e])[1..] == es[1..] + [e];
    }
  }

  /** Any run of edits that does not abort leaves what the same edits do to a plain sequence:
      growing, shrinking and terminating the buffer never show in its content. */
  method RunEdits(buf: StrBuf, es: seq<Edit>) returns (st: Status)
    requires buf.Valid()
    requires forall i :: 0 <= i < |es| && es[i].AppendBytes? ==> |es[i].s| <= buf.sizeMax
    modifies buf, buf.b
    ensures st.Done? ==> buf.Valid() && buf.Content() == EditedAll(old(buf.Content()), es)
    ensures st.Done? ==> buf.b == old(buf.b) || fresh(buf.b)
  {
    st := Done;
    for i := 0 to |es|
      invariant buf.Valid() && (buf.b == old(buf.b) || fresh(buf.b))
      invariant EditedAll(buf.Content(), es[i..]) == EditedAll(old(buf.Content()), es)
    {
      assert es[i..][0] == es[i] && es[i..][1..] == es[i + 1..];
      match es[i] {
        case AppendChar(c) => st := buf.AppendChar(c);
        case AppendBytes(t) =>
          var a := new Byte[|t|](k requires 0 <= k < |t| => t[k]);
          assert a[..][..|t|] == t;
          st := buf.AppendBuf(a, |t|);
        case Clear => buf.Clear();
        case Shrink => st := buf.Shrink();
        case ToStr(optimize) => st := buf.ToStr(optimize);
      }
      if st != Done {
        return;
      }
    }
  }
}
