/**
 Bytes and byte strings.  The C code works on `unsigned char`; a byte is modelled as a
 character below 256, so that the literal texts of the source can be written as they are.
 */
module Bytes {
  type Byte = c: char | c as int < 256
  type Text = seq<Byte>

  const NUL: Byte := '\0'
  const INT_MAX: int := 0x7FFF_FFFF
  const INT_MIN: int := -0x8000_0000

  /** The text `t` stands in `c` at position `off`. */
  ghost predicate At(c: Text, off: int, t: Text) {
    0 <= off && off + |t| <= |c| && c[off..off + |t|] == t
  }

  lemma AtConcat(c: Text, off: int, a: Text, b: Text)
    ensures At(c, off, a + b) <==> At(c, off, a) && At(c, off + |a|, b)
  {
    if At(c, off, a + b) {
      assert c[off..off + |a + b|][..|a|] == c[off..off + |a|];
      assert c[off..off + |a + b|][|a|..] == c[off + |a|..off + |a| + |b|];
    }
    if At(c, off, a) && At(c, off + |a|, b) {
      assert c[off..off + |a + b|] == c[off..off + |a|] + c[off + |a|..off + |a| + |b|];
    }
  }

  lemma AtByte(c: Text, off: int, t: Text, k: int)
    requires At(c, off, t) && 0 <= k < |t|
    ensures 0 <= off && off + k < |c| && c[off + k] == t[k]
  {
    assert c[off..off + |t|][k] == t[k];
  }

  /** The buffer `s` after `t` has been written at position `o`. */
  function Splice(s: Text, o: nat, t: Text): (r: Text)
    requires o + |t| <= |s|
    ensures |r| == |s|
  {
    s[..o] + t + s[o + |t|..]
  }

  lemma Spliced(s: Text, r: Text, o: nat, t: Text)
    requires o + |t| <= |s| == |r|
    requires forall i :: 0 <= i < |t| ==> r[o + i] == t[i]
    requires forall i :: 0 <= i < o || o + |t| <= i < |s| ==> r[i] == s[i]
    ensures r == Splice(s, o, t)
  {
    assert forall i :: o <= i < o + |t| ==> r[i] == t[i - o];
  }

  ghost predicate NulFree(s: Text) {
    forall i :: 0 <= i < |s| ==> s[i] != NUL
  }

  /** What the string functions of C see of a buffer: the bytes in front of the first NUL. */
  function CString(s: Text): (r: Text)
    ensures NulFree(r) && r <= s
    ensures |r| < |s| ==> s[|r|] == NUL
  {
    if s == [] || s[0] == NUL then [] else
      var r := CString(s[1..]);
      assert r <= s[1..];
      [s[0]] + r
  }

  lemma CStringUnique(s: Text, t: Text)
    requires NulFree(t) && t <= s && (|t| == |s| || s[|t|] == NUL)
    ensures CString(s) == t
  {
    var r := CString(s);
    assert forall i :: 0 <= i < |r| ==> r[i] == s[i];
    assert forall i :: 0 <= i < |t| ==> t[i] == s[i];
  }
}
