/**
 Byte orders: `memcpy_reverse` (components/system/system.c:6-15), and why reversing a block of
 big-endian registers gives little-endian fields in reverse order, as the packed struct at
 components/huawei_modbus_converter/huawei_modbus_converter.c:10-31 expects.
 */
module ByteOrder {
  import opened Bytes

  function Reverse<T>(s: seq<T>): (r: seq<T>)
    ensures |r| == |s|
    ensures forall i :: 0 <= i < |s| ==> r[i] == s[|s| - 1 - i]
  {
    if s == [] then [] else Reverse(s[1..]) + [s[0]]
  }

  /** The two bytes of each register exchanged. */
  function SwapPairs(s: Text): (r: Text)
    requires |s| % 2 == 0
    ensures |r| == |s|
  {
    seq(|s|, i requires 0 <= i < |s| => s[if i % 2 == 0 then i + 1 else i - 1])
  }

  /** Each register reads as its own number once its bytes are exchanged. */
  lemma SwappedRegister(s: Text, k: nat)
    requires |s| % 2 == 0 && 2 * k + 1 < |s|
    ensures var r := SwapPairs(s);
      && r[2 * k] == s[2 * k + 1] && r[2 * k + 1] == s[2 * k]
      && ReadLittleEndian(r[2 * k..2 * k + 2]) == 256 * (s[2 * k] as int) + s[2 * k + 1] as int
  {
    var p := SwapPairs(s)[2 * k..2 * k + 2];
    assert p[1..][1..] == [];
    assert ReadLittleEndian(p[1..]) == p[1] as int;
  }

  /** Copies bytes in reverse order; the size is an 8-bit number. */
  method MemcpyReverse(d: array<Byte>, s: array<Byte>, from: nat, size: nat)
    requires size % 256 <= d.Length && from + size % 256 <= s.Length && d != s
    modifies d
    ensures d[..size % 256] == Reverse(s[from..from + size % 256])
    ensures d[size % 256..] == old(d[size % 256..])
  {
    var count := size % 256;
    var pd, ps := 0, from + count;
    while pd < count
      invariant pd <= count && ps == from + count - pd
      invariant forall i :: 0 <= i < pd ==> d[i] == s[from + count - 1 - i]
      invariant d[count..] == old(d[count..])
      modifies d
    {
      ps := ps - 1;
      d[pd] := s[ps];
      pd := pd + 1;
    }
  }

  // ----- numbers as bytes

  function Pow256(n: nat): (r: nat)
    ensures r > 0
  {
    if n == 0 then 1 else 256 * Pow256(n - 1)
  }

  /** A number in `width` bytes, the highest first. */
  function BigEndian(v: nat, width: nat): (t: Text)
    requires v < Pow256(width)
    ensures |t| == width
    decreases width
  {
    if width == 0 then [] else BigEndian(v / 256, width - 1) + [(v % 256) as char]
  }

  /** The number that a little-endian machine reads from the bytes. */
  function ReadLittleEndian(t: Text): (v: nat)
    ensures v < Pow256(|t|)
  {
    if t == [] then 0 else t[0] as int + 256 * ReadLittleEndian(t[1..])
  }

  lemma BigEndianStep(v: nat, width: nat)
    requires 0 < width && v < Pow256(width)
    ensures v / 256 < Pow256(width - 1) && BigEndian(v, width) == BigEndian(v / 256, width - 1) + [(v % 256) as char]
  {
  }

  /** A number of one register, byte by byte. */
  lemma TwoBytes(v: nat)
    requires v < 0x10000
    ensures Pow256(2) == 0x10000 && BigEndian(v, 2) == [(v / 256) as char, (v % 256) as char]
  {
    assert Pow256(1) == 256;
    BigEndianStep(v, 2);
    BigEndianStep(v / 256, 1);
  }

  /** A number of two registers: the register with the high bytes comes first. */
  lemma FourBytes(v: nat)
    requires v < 0x1_0000_0000
    ensures Pow256(4) == 0x1_0000_0000 && v / 0x10000 < 0x10000
    ensures BigEndian(v, 4) == BigEndian(v / 0x10000, 2) + BigEndian(v % 0x10000, 2)
  {
    hide BigEndian;
    assert Pow256(2) == 0x10000 && Pow256(4) == 0x1_0000_0000;
    BigEndianStep(v, 4);
    BigEndianStep(v / 256, 3);
    assert v / 256 / 256 == v / 0x10000;
    TwoBytes(v % 0x10000);
    assert v % 0x10000 / 256 == v / 256 % 256 && v % 0x10000 % 256 == v % 256;
  }

  lemma {:induction false} ReversedIsLittleEndian(v: nat, width: nat)
    requires v < Pow256(width)
    ensures ReadLittleEndian(Reverse(BigEndian(v, width))) == v
    decreases width
  {
    if width > 0 {
      var high := BigEndian(v / 256, width - 1);
      var low: Text := [(v % 256) as char];
      ReverseConcat(high, low);
      var r := Reverse(BigEndian(v, width));
      assert r[0] == low[0] && r[1..] == Reverse(high);
      ReversedIsLittleEndian(v / 256, width - 1);
    } else {
      assert BigEndian(v, width) == [] && Reverse(BigEndian(v, width)) == [];
    }
  }

  lemma {:induction false} ReverseConcat<T>(a: seq<T>, b: seq<T>)
    ensures Reverse(a + b) == Reverse(b) + Reverse(a)
  {
    var r, s := Reverse(a + b), Reverse(b) + Reverse(a);
    forall i | 0 <= i < |r| ensures r[i] == s[i] {
    }
  }

  /** Where a piece of a sequence stands in the reversed sequence. */
  lemma {:induction false} ReversePiece<T>(s: seq<T>, off: nat, w: nat)
    requires off + w <= |s|
    ensures Reverse(s)[off..off + w] == Reverse(s[|s| - off - w..|s| - off])
  {
    hide Reverse;
    var r, p := Reverse(s)[off..off + w], s[|s| - off - w..|s| - off];
    forall i | 0 <= i < w ensures r[i] == Reverse(p)[i] {
      assert Reverse(p)[i] == p[w - 1 - i];
    }
  }

  lemma ReverseTwice<T>(s: seq<T>)
    ensures Reverse(Reverse(s)) == s
  {
  }

  // ----- blocks of fields

  /** An unsigned field of a block: its value and how many bytes it takes. */
  datatype Field = Field(value: nat, width: nat)

  ghost predicate Fits(fields: seq<Field>) {
    forall i :: 0 <= i < |fields| ==> fields[i].value < Pow256(fields[i].width)
  }

  function Width(fields: seq<Field>): nat {
    if fields == [] then 0 else fields[0].width + Width(fields[1..])
  }

  /** The block on the wire: the fields one after the other, each big-endian. */
  function Wire(fields: seq<Field>): (t: Text)
    requires Fits(fields)
    ensures |t| == Width(fields)
  {
    if fields == [] then [] else
      assert forall i :: 0 < i < |fields| ==> fields[1..][i - 1] == fields[i];
      BigEndian(fields[0].value, fields[0].width) + Wire(fields[1..])
  }

  /** The block in memory: the fields one after the other, each little-endian. */
  function Memory(fields: seq<Field>): (t: Text)
    requires Fits(fields)
    ensures |t| == Width(fields)
  {
    if fields == [] then [] else
      assert forall i :: 0 < i < |fields| ==> fields[1..][i - 1] == fields[i];
      Reverse(BigEndian(fields[0].value, fields[0].width)) + Memory(fields[1..])
  }

  lemma {:induction false} MemoryConcat(a: seq<Field>, b: seq<Field>)
    requires Fits(a) && Fits(b)
    ensures Fits(a + b) && Memory(a + b) == Memory(a) + Memory(b)
    decreases |a|
  {
    hide Reverse, BigEndian, Pow256;
    if a == [] {
      assert a + b == b;
    } else {
      assert (a + b)[1..] == a[1..] + b;
      MemoryConcat(a[1..], b);
      assert Memory(a + b) == Reverse(BigEndian(a[0].value, a[0].width)) + Memory(a[1..] + b);
    }
  }

  /**
   Reversing a whole block turns big-endian fields into little-endian fields in reverse order, for
   fields of any widths.
   */
  lemma {:induction false} ReversedBlock(fields: seq<Field>)
    requires Fits(fields)
    ensures Fits(Reverse(fields)) && Reverse(Wire(fields)) == Memory(Reverse(fields))
    decreases |fields|
  {
    if fields != [] {
      var first, rest := [fields[0]], fields[1..];
      ReversedBlock(rest);
      ReverseConcat(BigEndian(fields[0].value, fields[0].width), Wire(rest));
      MemoryConcat(Reverse(rest), first);
      assert Memory(first) == Reverse(BigEndian(fields[0].value, fields[0].width)) by {
        assert first[1..] == [];
      }
      assert Reverse(fields) == Reverse(rest) + first;
    }
  }

  /** The first field of a block stands in front of the others. */
  lemma MemoryStep(fields: seq<Field>)
    requires Fits(fields) && fields != []
    ensures var w := fields[0].width;
      && Fits(fields[1..]) && Width(fields) == w + Width(fields[1..])
      && Memory(fields)[..w] == Reverse(BigEndian(fields[0].value, w))
      && Memory(fields)[w..] == Memory(fields[1..])
  {
    hide Reverse, BigEndian, Pow256;
  }

  /** The field at position `k` of a packed struct: its offset, and the number read there. */
  lemma {:induction false} FieldInMemory(fields: seq<Field>, k: nat)
    requires Fits(fields) && k < |fields|
    ensures var off, w := Width(fields[..k]), fields[k].width;
      && off + w <= |Memory(fields)|
      && Memory(fields)[off..off + w] == Reverse(BigEndian(fields[k].value, w))
      && ReadLittleEndian(Memory(fields)[off..off + w]) == fields[k].value
    decreases |fields|
  {
    hide Reverse, BigEndian, ReadLittleEndian, Pow256, Memory;
    MemoryStep(fields);
    if k == 0 {
      assert fields[..0] == [];
      ReversedIsLittleEndian(fields[0].value, fields[0].width);
    } else {
      var m, rest, first := Memory(fields), fields[1..], fields[0].width;
      FieldInMemory(rest, k - 1);
      assert fields[..k][1..] == rest[..k - 1];
      var off, w := Width(rest[..k - 1]), rest[k - 1].width;
      assert m[first + off..first + off + w] == m[first..][off..off + w];
    }
  }
}
