/** Byte-addressed memory: only mapped addresses can be read or written. */
module ByteMemory {

  newtype Byte = b: int | 0 <= b < 256

  type Memory = map<int, Byte>

  ghost predicate Mapped(m: Memory, a: int, n: int) {
    forall x :: a <= x < a + n ==> x in m
  }

  function Read(m: Memory, a: int, n: nat): (s: seq<Byte>)
    requires Mapped(m, a, n)
    ensures |s| == n
  {
    seq(n, i requires 0 <= i < n => m[a + i])
  }

  function Write(m: Memory, a: int, data: seq<Byte>): (m': Memory)
    requires Mapped(m, a, |data|)
    ensures m'.Keys == m.Keys
  {
    map x | x in m :: if a <= x < a + |data| then data[x - a] else m[x]
  }

  /** `n` bytes copied from `src` to `dst`. */
  function CopyWithin(m: Memory, dst: int, src: int, n: nat): (m': Memory)
    requires Mapped(m, dst, n) && Mapped(m, src, n)
    ensures m'.Keys == m.Keys
  {
    Write(m, dst, Read(m, src, n))
  }

  /** The bytes at [a, a + |data|) join the mapped memory. */
  function Map(m: Memory, a: int, data: seq<Byte>): Memory {
    map x | x in m.Keys + Range(a, |data|) :: if a <= x < a + |data| then data[x - a] else m[x]
  }

  /** The bytes at [a, a + n) leave it. */
  function Unmap(m: Memory, a: int, n: int): Memory {
    map x | x in m && !(a <= x < a + n) :: m[x]
  }

  function Range(a: int, n: nat): (s: set<int>)
    ensures forall x :: x in s <==> a <= x < a + n
  {
    if n == 0 then {} else Range(a, n - 1) + {a + n - 1}
  }

  lemma ReadWritten(m: Memory, a: int, data: seq<Byte>)
    requires Mapped(m, a, |data|)
    ensures Read(Write(m, a, data), a, |data|) == data
  {
  }

  lemma ReadElsewhere(m: Memory, a: int, data: seq<Byte>, b: int, n: nat)
    requires Mapped(m, a, |data|) && Mapped(m, b, n)
    requires n == 0 || data == [] || a + |data| <= b || b + n <= a
    ensures Read(Write(m, a, data), b, n) == Read(m, b, n)
  {
  }

  lemma ReadSame(m: Memory, m': Memory, b: int, n: nat)
    requires Mapped(m, b, n) && forall x :: b <= x < b + n ==> x in m' && m'[x] == m[x]
    ensures Mapped(m', b, n) && Read(m', b, n) == Read(m, b, n)
  {
  }

  lemma WriteTwice(m: Memory, a: int, d: seq<Byte>, e: seq<Byte>)
    requires Mapped(m, a, |d| + |e|)
    ensures Write(Write(m, a, d), a + |d|, e) == Write(m, a, d + e)
  {
  }

  /** Writing just above what was read appends to it. */
  lemma ReadAppended(m: Memory, a: int, n: nat, data: seq<Byte>)
    requires Mapped(m, a, n + |data|)
    ensures Read(Write(m, a + n, data), a, n + |data|) == Read(m, a, n) + data
  {
  }

  lemma ReadCopied(m: Memory, dst: int, src: int, n: nat)
    requires Mapped(m, dst, n) && Mapped(m, src, n)
    ensures Read(CopyWithin(m, dst, src, n), dst, n) == Read(m, src, n)
  {
    ReadWritten(m, dst, Read(m, src, n));
  }

  lemma ReadBesideMapped(m: Memory, a: int, data: seq<Byte>, b: int, n: nat)
    requires Mapped(m, b, n) && (b + n <= a || a + |data| <= b)
    ensures Mapped(Map(m, a, data), b, n) && Read(Map(m, a, data), b, n) == Read(m, b, n)
  {
    ReadSame(m, Map(m, a, data), b, n);
  }

  lemma ReadCopiedIn(m: Memory, a: int, data: seq<Byte>, dst: int, src: int, n: nat)
    requires Mapped(m, src, n) && (src + n <= a || a + |data| <= src) && a <= dst && dst + n <= a + |data|
    ensures var m' := Map(m, a, data);
            && Mapped(m', dst, n) && Mapped(m', src, n)
            && Read(CopyWithin(m', dst, src, n), dst, n) == Read(m, src, n)
  {
    ReadBesideMapped(m, a, data, src, n);
    ReadCopied(Map(m, a, data), dst, src, n);
  }
}
