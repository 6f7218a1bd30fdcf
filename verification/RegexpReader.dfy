/**
 The pattern reader of `compile` in regexp.h: placing the compiled expression in the caller's
 buffer, and reading the pattern into a buffer that grows on the stack.
 */
module RegexpReader {
  import opened Bits
  import opened ByteMemory

  // ---------- The expression buffer ----------

  /** Where in the caller's buffer the `regex_t` goes, or error 50. */
  datatype Placement = Overflow50 | Placed(exprPtr: nat, buffer: nat, space: nat)

  /** `__alignof__ (regex_t *)` is 8. */
  function Place(expbuf: nat, endbuf: nat, regexSize: nat): Placement {
    var up := expbuf + 8;
    var aligned := up - up % 8;
    if endbuf < aligned + regexSize then Overflow50
    else Placed(aligned, aligned + regexSize, endbuf - (aligned + regexSize))
  }

  /**
   The `regex_t` goes to the first aligned address after `expbuf`, never to `expbuf` itself,
   and the rest of the buffer is left for the pattern; error 50 exactly when no such place fits.
   */
  lemma PlaceIsFirstFit(expbuf: nat, endbuf: nat, regexSize: nat)
    ensures match Place(expbuf, endbuf, regexSize)
            case Placed(e, buffer, space) =>
              && e % 8 == 0 && expbuf < e <= expbuf + 8
              && buffer == e + regexSize && buffer + space == endbuf
              && (forall a: nat :: a % 8 == 0 && expbuf < a ==> e <= a)
            case Overflow50 => !exists a: nat :: Usable(a, expbuf, endbuf, regexSize)
    ensures Place(expbuf, endbuf, regexSize).Placed? ==>
              Usable(Place(expbuf, endbuf, regexSize).exprPtr, expbuf, endbuf, regexSize)
  {
  }

  /** Error 50 although an aligned `regex_t` of 64 bytes would fill the buffer from 8 to 72 exactly. */
  lemma PlaceRefusesExactFit()
    ensures Place(8, 72, 64) == Overflow50 && FitsAtStart(8, 72, 64)
  {
  }

  /** The buffer is aligned and large enough as it is. */
  predicate FitsAtStart(expbuf: nat, endbuf: nat, regexSize: nat) {
    expbuf % 8 == 0 && expbuf + regexSize <= endbuf
  }

  /** A buffer that fits as it is gets error 50 exactly when it has fewer than eight bytes to spare. */
  lemma PlaceRefusesFit(expbuf: nat, endbuf: nat, regexSize: nat)
    requires FitsAtStart(expbuf, endbuf, regexSize)
    ensures Place(expbuf, endbuf, regexSize) == Overflow50 <==> endbuf < expbuf + 8 + regexSize
  {
  }

  predicate Usable(a: nat, expbuf: nat, endbuf: nat, regexSize: nat) {
    a % 8 == 0 && expbuf < a && a + regexSize <= endbuf
  }

  // ---------- The pattern source ----------

  /** The characters `GETC` will return. */
  class PatternSource {
    var rest: seq<int>

    constructor (chars: seq<int>)
      ensures rest == chars
    {
      rest := chars;
    }

    method GetC() returns (ch: int)
      requires rest != []
      modifies this
      ensures ch == old(rest)[0] && rest == old(rest)[1..]
    {
      ch := rest[0];
      rest := rest[1..];
    }

    method UngetC(ch: int)
      modifies this
      ensures rest == [ch] + old(rest)
    {
      rest := [ch] + rest;
    }
  }

  predicate Stops(ch: int, eof: int) {
    ch == eof || ch == 0 || ch == 10
  }

  /** The number of characters before the first that ends the pattern. */
  function PatternLength(chars: seq<int>, eof: int): (n: nat)
    ensures n <= |chars|
    ensures forall i :: 0 <= i < n ==> !Stops(chars[i], eof)
    ensures n < |chars| ==> Stops(chars[n], eof)
  {
    if chars == [] || Stops(chars[0], eof) then 0 else 1 + PatternLength(chars[1..], eof)
  }

  /** Position `n` holds the caller's end marker, a NUL or a newline, and is the first that does. */
  predicate EndsAt(chars: seq<int>, eof: int, n: nat)
    requires n < |chars|
  {
    && (chars[n] == eof || chars[n] == 0 || chars[n] == 10)
    && forall i :: 0 <= i < n ==> chars[i] != eof && chars[i] != 0 && chars[i] != 10
  }

  /** What storing an `int` into a `char` keeps. */
  function ToChar(ch: int): Byte {
    Mod(ch, 256) as Byte
  }

  /** A character is kept, and any other `int` modulo 256. */
  lemma ToCharKeeps(ch: int)
    ensures (ToChar(ch) as int - ch) % 256 == 0
    ensures 0 <= ch < 256 ==> ToChar(ch) as int == ch
  {
    ModIsRemainder(ch, 256);
  }

  function ToChars(chars: seq<int>): (s: seq<Byte>)
    ensures |s| == |chars|
  {
    seq(|chars|, i requires 0 <= i < |chars| => ToChar(chars[i]))
  }

  // ---------- The stack frame ----------

  /** What is handed to `regcomp`: the empty literal or the buffer. */
  datatype Pattern = EmptyLiteral | Buffer(addr: nat)

  class Frame {
    var mem: Memory
    var blocks: seq<(nat, nat)>   // address and size of every block taken from alloca
    var taken: nat                // their total size

    constructor ()
      ensures blocks == [] && taken == 0 && mem == map[]
    {
      mem := map[];
      blocks := [];
      taken := 0;
    }

    /** Any block that overlaps no earlier one; its bytes are whatever was on the stack. */
    method Alloca(n: nat) returns (a: nat)
      requires BlocksMapped(blocks, mem)
      modifies this
      ensures a > 0 && BlocksMapped(blocks, mem)
      ensures blocks == old(blocks) + [(a, n)] && taken == old(taken) + n
      ensures Mapped(mem, a, n)
      ensures forall x :: x in old(mem) ==> !(a <= x < a + n) && x in mem && mem[x] == old(mem)[x]
    {
      FreshExists(mem, n);
      a :| a > 0 && Unused(mem, a, n);
      assert |seq(n, _ => 0 as Byte)| == n;
      var junk: seq<Byte> :| |junk| == n;
      mem := Map(mem, a, junk);
      blocks := blocks + [(a, n)];
      taken := taken + n;
    }

    /** `memcpy`: both ranges are mapped and do not overlap. */
    method MemCpy(dst: nat, src: nat, n: nat)
      requires n > 0 ==> Mapped(mem, dst, n) && Mapped(mem, src, n)
      requires n == 0 || dst + n <= src || src + n <= dst
      modifies this`mem
      ensures mem.Keys == old(mem).Keys
      ensures forall x :: x in mem && !(dst <= x < dst + n) ==> mem[x] == old(mem)[x]
      ensures n > 0 ==> Mapped(mem, dst, n) && Read(mem, dst, n) == Read(old(mem), src, n)
    {
      if n > 0 {
        mem := Write(mem, dst, Read(mem, src, n));
      }
    }

    /** The three ways in which a new block becomes part of the buffer or replaces it. */
    method GrowBuffer(buffer: nat, size: nat, current: nat) returns (buffer': nat, size': nat)
      requires BlocksMapped(blocks, mem) && BufferOk(mem, buffer, size, current)
      requires taken <= 2 * size && current + 1 >= size
      modifies this
      ensures BlocksMapped(blocks, mem) && BufferOk(mem, buffer', size', current)
      ensures current + 1 < size'
      ensures taken <= 2 * size' && (taken <= 128 || taken <= 4 * (current + 1))
      ensures current > 0 ==> Read(mem, buffer', current) == old(Read(mem, buffer, current))
    {
      var newSize := if size != 0 then 2 * size else 128;
      var newRoom := Alloca(newSize);
      BlocksApart(old(mem), newRoom, newSize, buffer, size);
      if newRoom + newSize == buffer {
        size' := size + newSize;
        MemCpy(newRoom, buffer, current);
        buffer' := newRoom;
      } else if buffer + size == newRoom {
        size' := size + newSize;
        buffer' := buffer;
      } else {
        size' := newSize;
        MemCpy(newRoom, buffer, current);
        buffer' := newRoom;
      }
    }

    /**
     The reading loop. Whatever the placement of the blocks, `regcomp` gets exactly the
     characters before the first end marker, followed by a NUL, and only a NUL or a newline
     that is not the caller's end marker is pushed back.
     */
    method ReadPattern(source: PatternSource, eof: int) returns (pattern: Pattern)
      requires blocks == [] && taken == 0 && mem == map[]
      requires PatternLength(source.rest, eof) < |source.rest|
      modifies this, source
      ensures var n := PatternLength(old(source.rest), eof);
              var chars := old(source.rest);
              && source.rest == (if chars[n] == eof then chars[n + 1..] else chars[n..])
              && (pattern.EmptyLiteral? <==> n == 0)
              && EndsAt(chars, eof, n)
              && (pattern.Buffer? ==> HoldsPattern(mem, pattern.addr, chars[..n]))
              && taken <= (if n == 0 then 0 else if 4 * n < 128 then 128 else 4 * n)
    {
      var buffer, size, current := 0, 0, 0;
      ghost var chars := source.rest;
      ghost var n := PatternLength(chars, eof);
      var ch := source.GetC();
      while ch != eof
        invariant current <= n && ch == chars[current] && source.rest == chars[current + 1..]
        invariant BlocksMapped(blocks, mem) && BufferOk(mem, buffer, size, current)
        invariant taken <= 2 * size && (taken <= 128 || taken <= 4 * current) && (current == 0 ==> taken == 0)
        invariant current > 0 ==> Read(mem, buffer, current) == ToChars(chars[..current])
        decreases n - current
      {
        if ch == 0 || ch == 10 {
          source.UngetC(ch);
          break;
        }
        buffer, size := Put(buffer, size, current, ch, chars);
        current := current + 1;
        assert chars[current..][1..] == chars[current + 1..];
        ch := source.GetC();
      }
      assert current == n;
      if current != 0 {
        Terminate(buffer, size, current, chars);
        pattern := Buffer(buffer);
      } else {
        pattern := EmptyLiteral;
      }
    }

    /** `__input_buffer[__current_size++] = __ch`. */
    method Store(buffer: nat, size: nat, current: nat, ch: int, ghost chars: seq<int>)
      requires BlocksMapped(blocks, mem) && BufferOk(mem, buffer, size, current) && current + 1 < size
      requires current < |chars| && ch == chars[current]
      requires current > 0 ==> Read(mem, buffer, current) == ToChars(chars[..current])
      modifies this`mem
      ensures BlocksMapped(blocks, mem) && BufferOk(mem, buffer, size, current + 1)
      ensures Read(mem, buffer, current + 1) == ToChars(chars[..current + 1])
    {
      ghost var before := mem;
      mem := Write(mem, buffer + current, [ToChar(ch)]);
      ReadAppended(before, buffer, current, [ToChar(ch)]);
      assert ToChars(chars[..current + 1]) == ToChars(chars[..current]) + [ToChar(ch)];
    }

    /** One character joins the pattern, in a larger buffer if it and the NUL would not fit. */
    method Put(buffer: nat, size: nat, current: nat, ch: int, ghost chars: seq<int>)
      returns (buffer': nat, size': nat)
      requires BlocksMapped(blocks, mem) && BufferOk(mem, buffer, size, current) && taken <= 2 * size
      requires current < |chars| && ch == chars[current] && (taken <= 128 || taken <= 4 * current)
      requires current > 0 ==> Read(mem, buffer, current) == ToChars(chars[..current])
      modifies this
      ensures BlocksMapped(blocks, mem) && BufferOk(mem, buffer', size', current + 1) && taken <= 2 * size'
      ensures taken <= 128 || taken <= 4 * (current + 1)
      ensures Read(mem, buffer', current + 1) == ToChars(chars[..current + 1])
    {
      buffer', size' := buffer, size;
      if current + 1 >= size {
        buffer', size' := GrowBuffer(buffer, size, current);
      }
      Store(buffer', size', current, ch, chars);
    }

    /** The terminating NUL still fits. */
    method Terminate(buffer: nat, size: nat, current: nat, ghost chars: seq<int>)
      requires BufferOk(mem, buffer, size, current) && 0 < current <= |chars|
      requires Read(mem, buffer, current) == ToChars(chars[..current])
      modifies this`mem
      ensures HoldsPattern(mem, buffer, chars[..current])
    {
      ReadAppended(mem, buffer, current, [0]);
      mem := Write(mem, buffer + current, [0]);
      PatternHeld(mem, buffer, chars[..current]);
    }
  }

  /** The characters lie at `a`, each as itself if it is one byte and otherwise modulo 256, and then a NUL. */
  ghost predicate HoldsPattern(m: Memory, a: nat, chars: seq<int>) {
    && Mapped(m, a, |chars| + 1)
    && (forall i :: 0 <= i < |chars| ==> (m[a + i] as int - chars[i]) % 256 == 0)
    && (forall i :: 0 <= i < |chars| && 0 <= chars[i] < 256 ==> m[a + i] as int == chars[i])
    && m[a + |chars|] == 0
  }

  lemma PatternHeld(m: Memory, a: nat, chars: seq<int>)
    requires Mapped(m, a, |chars| + 1) && Read(m, a, |chars| + 1) == ToChars(chars) + [0]
    ensures HoldsPattern(m, a, chars)
  {
    var s := Read(m, a, |chars| + 1);
    forall i | 0 <= i < |chars| ensures m[a + i] == ToChar(chars[i]) { assert m[a + i] == s[i]; }
    forall i | 0 <= i < |chars|
      ensures (m[a + i] as int - chars[i]) % 256 == 0
      ensures 0 <= chars[i] < 256 ==> m[a + i] as int == chars[i]
    {
      ToCharKeeps(chars[i]);
    }
    assert s[|chars|] == 0;
  }

  ghost predicate BlocksMapped(blocks: seq<(nat, nat)>, m: Memory) {
    forall i :: 0 <= i < |blocks| ==> Mapped(m, blocks[i].0, blocks[i].1)
  }

  predicate Unused(m: Memory, a: nat, n: nat) {
    forall x :: a <= x < a + n ==> x !in m
  }

  /** No buffer yet, or `size` mapped bytes with room for `current` characters and a terminator. */
  ghost predicate BufferOk(m: Memory, buffer: nat, size: nat, current: nat) {
    if size == 0 then buffer == 0 && current == 0
    else size >= 128 && current < size && Mapped(m, buffer, size)
  }

  /** A block of unused addresses lies below or above any mapped range. */
  lemma BlocksApart(m: Memory, a: nat, n: nat, b: nat, k: nat)
    requires n > 0 && Mapped(m, b, k) && forall x :: x in m ==> !(a <= x < a + n)
    ensures k == 0 || a + n <= b || b + k <= a
  {
    assert a !in m;
    assert k > 0 ==> b in m;
  }

  lemma FreshExists(m: Memory, n: nat)
    ensures exists a: nat :: a > 0 && Unused(m, a, n)
  {
    var top := AboveAll(m.Keys);
    assert Unused(m, top, n);
  }

  lemma AboveAll(s: set<int>) returns (top: nat)
    ensures top > 0 && forall x :: x in s ==> x < top
  {
    if x :| x in s {
      var t := AboveAll(s - {x});
      top := if x < t then t else x + 1;
      assert forall y :: y in s ==> y == x || y in s - {x};
    } else {
      top := 1;
    }
  }

  // ---------- What regcomp sees ----------

  /** The string at an address, up to its NUL. */
  function CString(s: seq<Byte>): (n: nat)
    ensures n <= |s|
    ensures forall i :: 0 <= i < n ==> s[i] != 0
    ensures n < |s| ==> s[n] == 0
  {
    if s == [] || s[0] == 0 then 0 else 1 + CString(s[1..])
  }

  /** The string ends where the pattern does exactly when no character is a multiple of 256. */
  lemma RegcompSeesWholePattern(m: Memory, a: nat, chars: seq<int>)
    requires HoldsPattern(m, a, chars)
    ensures CString(Read(m, a, |chars| + 1)) == |chars| <==> forall i :: 0 <= i < |chars| ==> chars[i] % 256 != 0
  {
    var s, n := Read(m, a, |chars| + 1), |chars|;
    forall i | 0 <= i < n ensures (s[i] == 0) == (chars[i] % 256 == 0) {
      assert s[i] == m[a + i] && (m[a + i] as int - chars[i]) % 256 == 0;
    }
    assert s[n] == 0;
    assert CString(s) <= n;
    if CString(s) < n { assert chars[CString(s)] % 256 == 0; }
  }
}
