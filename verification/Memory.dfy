/** Bytes, size_t and the aborting allocator of xalloc.h. */
module Memory {

  type Byte = x: int | 0 <= x < 256

  datatype Option<+T> = None | Some(value: T)

  /** How a call ends: normally, or in alloc_error(), which does not return. */
  datatype Status = Done | TooLarge | NoMemory

  /** size_t addition and multiplication, for a type whose greatest value is `max`. */
  function AddSize(max: nat, a: nat, b: nat): nat {
    (a + b) % (max + 1)
  }

  function MulSize(max: nat, a: nat, b: nat): nat {
    (a * b) % (max + 1)
  }

  /** size_t arithmetic is exact while the result is in range. */
  lemma SizeExact(max: nat, a: nat, b: nat)
    ensures a + b <= max ==> AddSize(max, a, b) == a + b
    ensures a * b <= max ==> MulSize(max, a, b) == a * b
  {
    ModSmall(a + b, max + 1);
    assert a * b >= 0;
    ModSmall(a * b, max + 1);
  }

  lemma ModSmall(a: nat, n: nat)
    requires n > 0
    ensures a < n ==> a % n == a
  {}

  function Min(a: nat, b: nat): nat {
    if a < b then a else b
  }

  /** The bytes of a block that may be NULL. */
  ghost function Bytes(b: array?<Byte>): seq<Byte>
    reads b
  {
    if b == null then [] else b[..]
  }

  /** Xrealloc: a block of `n` bytes that starts like the old one, or the end of the run.
      A request for no bytes may end the run as well, since realloc may return NULL for it. */
  method Xrealloc(old_: array?<Byte>, n: nat) returns (st: Status, b: array<Byte>)
    ensures st == Done || st == NoMemory
    ensures st.Done? ==> fresh(b) && b.Length == n
    ensures st.Done? ==> forall i :: 0 <= i < n && i < |Bytes(old_)| ==> b[i] == Bytes(old_)[i]
  {
    b := new Byte[n];
    if * {
      return NoMemory, b;
    }
    if old_ != null {
      forall i | 0 <= i < Min(n, old_.Length) {
        b[i] := old_[i];
      }
    }
    st := Done;
  }

  /** memcpy to `dst + at`. */
  method Memcpy(dst: array<Byte>, at: nat, src: seq<Byte>)
    requires at + |src| <= dst.Length
    modifies dst
    ensures dst[..] == old(dst[..])[..at] + src + old(dst[..])[at + |src|..]
  {
    forall i | 0 <= i < |src| {
      dst[at + i] := src[i];
    }
  }

  /** The C string at the start of `s`: everything before the first NUL. */
  function CString(s: seq<Byte>): (r: seq<Byte>)
    ensures r <= s && 0 !in r
    ensures 0 in s ==> |r| < |s| && s[|r|] == 0
  {
    if s == [] || s[0] == 0 then [] else [s[0]] + CString(s[1..])
  }

  /** Only what precedes a NUL counts; a NUL-free string is read back whole. */
  lemma {:induction false} CStringOf(s: seq<Byte>, t: seq<Byte>)
    ensures CString(s + [0] + t) == CString(s)
    ensures 0 !in s ==> CString(s) == s
  {
    if s != [] {
      assert (s + [0] + t)[1..] == s[1..] + [0] + t;
      CStringOf(s[1..], t);
    } else {
      assert (s + [0] + t)[0] == 0;
    }
  }

  /** A NUL stored behind the first `l` bytes of a block, which are new. */
  lemma NulStored(filled: seq<Byte>, before: seq<Byte>, l: nat)
    requires l < |filled| == |before| && filled[l..] == before[l..]
    ensures filled[..l] + [0] <= filled[l := 0] && filled[l := 0][l + 1..] == before[l + 1..]
  {
    assert filled[l := 0][l + 1..] == filled[l..][1..];
  }
}
