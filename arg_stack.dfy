/** argument_stack (userprog/process.c): lay out the program's arguments on
    the user stack, x86-64 calling convention style. The stack is a byte
    buffer `mem` holding the user addresses base .. base + mem.Length - 1;
    the pushes go down from the stack pointer the interrupt frame holds. */
module ArgStack {
  import opened VmTypes

  /** The registers of the interrupt frame argument_stack sets. */
  class IntrFrame {
    var rsp: int
    var rsi: int
    var rdi: int

    constructor (rsp: int)
      ensures this.rsp == rsp && rsi == 0 && rdi == 0
    {
      this.rsp := rsp;
      rsi := 0;
      rdi := 0;
    }
  }

  /** The arguments are C strings: none holds a NUL byte before its terminator,
      so strlen of argv[i] is |argv[i]|. */
  predicate NoNul(argv: seq<seq<byte>>)
  {
    forall i, j :: 0 <= i < |argv| && 0 <= j < |argv[i]| ==> argv[i][j] != 0
  }

  // ---- the byte image argument_stack produces ----

  /** The low n bytes of x, least significant first (a little-endian store). */
  function LEBytes(x: int, n: nat): (r: seq<byte>)
    decreases n
    ensures |r| == n
  {
    if n == 0 then [] else [(x % 256) as byte] + LEBytes(x / 256, n - 1)
  }

  /** The value of a little-endian byte sequence. */
  function DecodeLE(b: seq<byte>): (x: nat)
  {
    if |b| == 0 then 0 else b[0] as nat + 256 * DecodeLE(b[1..])
  }

  /** 256^n. */
  function Pow256(n: nat): (r: nat)
    ensures r > 0
  {
    if n == 0 then 1 else 256 * Pow256(n - 1)
  }

  /** Storing x in n bytes and reading them back gives x, when x fits. */
  lemma {:induction false} DecodeLEBytes(x: int, n: nat)
    requires 0 <= x < Pow256(n)
    ensures DecodeLE(LEBytes(x, n)) == x
  {
    if n > 0 {
      var q := x / 256;
      assert x == 256 * q + x % 256;
      assert q < Pow256(n - 1);
      DecodeLEBytes(q, n - 1);
      assert LEBytes(x, n)[1..] == LEBytes(q, n - 1);
    }
  }

  /** The bytes of the strings argv[i..] with their NULs: the strings region
      from the address of argv[i] up. */
  function StringsFrom(argv: seq<seq<byte>>, i: nat): (r: seq<byte>)
    requires i <= |argv|
    decreases |argv| - i
    ensures |r| == StrBytes(argv, i)
  {
    if i == |argv| then [] else argv[i] + [0] + StringsFrom(argv, i + 1)
  }

  /** The number of bytes the strings argv[i..] take with their NULs. */
  function StrBytes(argv: seq<seq<byte>>, i: nat): (n: nat)
    requires i <= |argv|
    decreases |argv| - i
  {
    if i == |argv| then 0 else |argv[i]| + 1 + StrBytes(argv, i + 1)
  }

  /** argv_addr[i]: where argv[i] lands when the pushes start at top. */
  function StrAddr(argv: seq<seq<byte>>, top: int, i: nat): (addr: int)
    requires i <= |argv|
  {
    top - StrBytes(argv, i)
  }

  /** Number of padding bytes: the strings end at an address that is rounded
      down to a multiple of 8. */
  function PadBytes(argv: seq<seq<byte>>, top: int): (n: nat)
  {
    (top - StrBytes(argv, 0)) % 8
  }

  /** The pointer words from argv_addr[i] on, lowest address first, ending
      with the NULL sentinel (i = |argv|); empty for i = |argv| + 1. */
  function PtrsFrom(argv: seq<seq<byte>>, top: int, i: nat): (r: seq<byte>)
    requires i <= |argv| + 1
    decreases |argv| + 1 - i
    ensures |r| == 8 * (|argv| + 1 - i)
  {
    if i == |argv| + 1 then []
    else if i == |argv| then Zeros(8)
    else LEBytes(StrAddr(argv, top, i), 8) + PtrsFrom(argv, top, i + 1)
  }

  /** The whole region argument_stack writes, from the final stack pointer
      up to top: the zeroed return slot, argv[0]'s pointer .. argv[argc-1]'s
      pointer and the NULL sentinel, the padding, and the strings. */
  function Image(argv: seq<seq<byte>>, top: int): (image: seq<byte>)
  {
    ImageFront(argv, top) + StringsFrom(argv, 0)
  }

  /** The part of the image below the strings: return slot, pointers, padding. */
  function ImageFront(argv: seq<seq<byte>>, top: int): (r: seq<byte>)
    ensures |r| == 16 + 8 * |argv| + PadBytes(argv, top)
  {
    Zeros(8) + PtrsFrom(argv, top, 0) + Zeros(PadBytes(argv, top))
  }

  /** The stack pointer argument_stack leaves behind. */
  function FinalRsp(argv: seq<seq<byte>>, top: int): (rsp: int)
  {
    top - StrBytes(argv, 0) - PadBytes(argv, top) - 8 * (|argv| + 1) - 8
  }

  /** The image fills the stack from the final stack pointer to top, and that
      stack pointer (like rsi, 8 above it) is a multiple of 8. */
  lemma ImageLayout(argv: seq<seq<byte>>, top: int)
    ensures |Image(argv, top)| == top - FinalRsp(argv, top)
    ensures FinalRsp(argv, top) % 8 == 0
  {
    var s := top - StrBytes(argv, 0);
    var q := s / 8;
    assert s == 8 * q + PadBytes(argv, top);
    assert FinalRsp(argv, top) == 8 * (q - |argv| - 2);
    assert (8 * (q - |argv| - 2)) % 8 == 0;
  }

  /** A slice inside the left part of a concatenation. */
  lemma SliceLeft(a: seq<byte>, b: seq<byte>, lo: int, hi: int)
    requires 0 <= lo <= hi <= |a|
    ensures (a + b)[lo..hi] == a[lo..hi]
  {
    assert forall k :: 0 <= k < hi - lo ==> (a + b)[lo..hi][k] == a[lo..hi][k];
  }

  /** A slice inside the right part of a concatenation. */
  lemma SliceRight(a: seq<byte>, b: seq<byte>, lo: int, hi: int)
    requires |a| <= lo <= hi <= |a| + |b|
    ensures (a + b)[lo..hi] == b[lo - |a|..hi - |a|]
  {
    assert forall k :: 0 <= k < hi - lo ==> (a + b)[lo..hi][k] == b[lo - |a|..hi - |a|][k];
  }

  /** Word j - i of PtrsFrom(i) is argv_addr[j], and word |argv| - i is NULL. */
  lemma {:induction false} PtrsFromAt(argv: seq<seq<byte>>, top: int, i: nat, j: nat)
    requires i <= j <= |argv|
    decreases j - i
    ensures PtrsFrom(argv, top, i)[8 * (j - i) .. 8 * (j - i) + 8]
            == if j == |argv| then Zeros(8) else LEBytes(StrAddr(argv, top, j), 8)
  {
    if i == j {
      if j == |argv| {
        assert PtrsFrom(argv, top, i)[0..8] == PtrsFrom(argv, top, i);
      } else {
        SliceLeft(LEBytes(StrAddr(argv, top, j), 8), PtrsFrom(argv, top, i + 1), 0, 8);
        assert LEBytes(StrAddr(argv, top, j), 8)[0..8] == LEBytes(StrAddr(argv, top, j), 8);
      }
    } else {
      PtrsFromAt(argv, top, i + 1, j);
      var w := LEBytes(StrAddr(argv, top, i), 8);
      var d := 8 * (j - i);
      SliceRight(w, PtrsFrom(argv, top, i + 1), d, d + 8);
      assert d - 8 == 8 * (j - (i + 1));
    }
  }

  /** A string w and a NUL after it, found at index at of b, are found
      |a| further on in a + b. */
  lemma PlacedRight(a: seq<byte>, b: seq<byte>, at: nat, w: seq<byte>)
    requires at + |w| < |b|
    requires forall k :: 0 <= k < |w| ==> b[at + k] == w[k]
    requires b[at + |w|] == 0
    ensures forall k :: 0 <= k < |w| ==> (a + b)[|a| + at + k] == w[k]
    ensures (a + b)[|a| + at + |w|] == 0
  {
    forall k | 0 <= k < |w|
      ensures (a + b)[|a| + at + k] == w[k]
    {
      assert (a + b)[|a| + at + k] == b[at + k];
    }
    assert (a + b)[|a| + at + |w|] == b[at + |w|];
  }

  /** The strings from argv[j] on take no more room than those from argv[i] on, i <= j. */
  lemma {:induction false} StrBytesMono(argv: seq<seq<byte>>, i: nat, j: nat)
    requires i <= j <= |argv|
    decreases j - i
    ensures StrBytes(argv, j) <= StrBytes(argv, i)
  {
    if i < j {
      StrBytesMono(argv, i + 1, j);
    }
  }

  /** In StringsFrom(i), the bytes of argv[j] and then a NUL start
      StrBytes(i) - StrBytes(j) bytes in. */
  lemma {:induction false} StringsFromAt(argv: seq<seq<byte>>, i: nat, j: nat)
    requires i <= j < |argv|
    decreases j - i
    ensures StrBytes(argv, j) + |argv[j]| + 1 <= StrBytes(argv, i) + |argv[j]| + 1 <= |StringsFrom(argv, i)| + StrBytes(argv, j)
    ensures var at := StrBytes(argv, i) - StrBytes(argv, j);
            && (forall k :: 0 <= k < |argv[j]| ==> StringsFrom(argv, i)[at + k] == argv[j][k])
            && StringsFrom(argv, i)[at + |argv[j]|] == 0
  {
    var s := argv[i] + [0];
    var rest := StringsFrom(argv, i + 1);
    assert StringsFrom(argv, i) == s + rest;
    if i < j {
      StringsFromAt(argv, i + 1, j);
      PlacedRight(s, rest, StrBytes(argv, i + 1) - StrBytes(argv, j), argv[j]);
    }
  }

  /** Word j above the return slot is argv_addr[j], or NULL for j = argc. */
  lemma ImageWordAt(argv: seq<seq<byte>>, top: int, j: nat)
    requires j <= |argv|
    ensures |Image(argv, top)| >= 16 + 8 * j
    ensures Image(argv, top)[8 + 8 * j .. 16 + 8 * j]
            == if j == |argv| then Zeros(8) else LEBytes(StrAddr(argv, top, j), 8)
  {
    FrontWordAt(argv, top, j);
    SliceLeft(ImageFront(argv, top), StringsFrom(argv, 0), 8 + 8 * j, 16 + 8 * j);
  }

  /** Word j above the return slot, within the part of the image below the strings. */
  lemma FrontWordAt(argv: seq<seq<byte>>, top: int, j: nat)
    requires j <= |argv|
    ensures |ImageFront(argv, top)| >= 16 + 8 * j
    ensures ImageFront(argv, top)[8 + 8 * j .. 16 + 8 * j]
            == if j == |argv| then Zeros(8) else LEBytes(StrAddr(argv, top, j), 8)
  {
    var slot := Zeros(8) + PtrsFrom(argv, top, 0);
    SlotWordAt(argv, top, j);
    SliceLeft(slot, Zeros(PadBytes(argv, top)), 8 + 8 * j, 16 + 8 * j);
  }

  /** Word j above the return slot, within the return slot and the pointers. */
  lemma SlotWordAt(argv: seq<seq<byte>>, top: int, j: nat)
    requires j <= |argv|
    ensures |Zeros(8) + PtrsFrom(argv, top, 0)| >= 16 + 8 * j
    ensures (Zeros(8) + PtrsFrom(argv, top, 0))[8 + 8 * j .. 16 + 8 * j]
            == if j == |argv| then Zeros(8) else LEBytes(StrAddr(argv, top, j), 8)
  {
    SliceRight(Zeros(8), PtrsFrom(argv, top, 0), 8 + 8 * j, 16 + 8 * j);
    PtrsFromAt(argv, top, 0, j);
  }

  /** Where argv[j] starts in the image: past the front and the strings
      argv[0..j-1]. */
  function StrIndex(argv: seq<seq<byte>>, top: int, j: nat): (index: int)
    requires j <= |argv|
  {
    |ImageFront(argv, top)| + StrBytes(argv, 0) - StrBytes(argv, j)
  }

  /** argv[j] and the NUL after it lie inside the image, from index StrIndex(j) on. */
  lemma ImageStringBounds(argv: seq<seq<byte>>, top: int, j: nat)
    requires j < |argv|
    ensures 0 <= StrIndex(argv, top, j) && StrIndex(argv, top, j) + |argv[j]| < |Image(argv, top)|
  {
    StrBytesMono(argv, 0, j);
  }

  /** The bytes of argv[j] lie at index StrIndex(j) of the image. */
  lemma ImageStringAt(argv: seq<seq<byte>>, top: int, j: nat)
    requires j < |argv|
    ensures 0 <= StrIndex(argv, top, j) && StrIndex(argv, top, j) + |argv[j]| < |Image(argv, top)|
    ensures forall k :: 0 <= k < |argv[j]| ==> Image(argv, top)[StrIndex(argv, top, j) + k] == argv[j][k]
  {
    ImageStringBounds(argv, top, j);
    StringsFromAt(argv, 0, j);
    var front := ImageFront(argv, top);
    var at := StrBytes(argv, 0) - StrBytes(argv, j);
    PlacedRight(front, StringsFrom(argv, 0), at, argv[j]);
  }

  /** The NUL terminator of argv[j] follows it in the image. */
  lemma ImageStringNul(argv: seq<seq<byte>>, top: int, j: nat)
    requires j < |argv|
    ensures 0 <= StrIndex(argv, top, j) && StrIndex(argv, top, j) + |argv[j]| < |Image(argv, top)|
    ensures Image(argv, top)[StrIndex(argv, top, j) + |argv[j]|] == 0
  {
    ImageStringBounds(argv, top, j);
    StringsFromAt(argv, 0, j);
    var front := ImageFront(argv, top);
    var at := StrBytes(argv, 0) - StrBytes(argv, j);
    PlacedRight(front, StringsFrom(argv, 0), at, argv[j]);
  }

  /** Index StrIndex(j) of the image is the address argv_addr[j]: the image
      starts at the final stack pointer. */
  lemma StrIndexIs(argv: seq<seq<byte>>, top: int, j: nat)
    requires j < |argv|
    ensures StrIndex(argv, top, j) == StrAddr(argv, top, j) - FinalRsp(argv, top)
  {
    var pad := PadBytes(argv, top);
    assert FinalRsp(argv, top) == top - StrBytes(argv, 0) - pad - 8 * |argv| - 16;
  }

  /** The return slot at the final stack pointer is zero. */
  lemma ImageReturnSlot(argv: seq<seq<byte>>, top: int)
    ensures |Image(argv, top)| >= 8 && Image(argv, top)[..8] == Zeros(8)
  {
    var slot := Zeros(8) + PtrsFrom(argv, top, 0);
    SliceLeft(ImageFront(argv, top), StringsFrom(argv, 0), 0, 8);
    SliceLeft(slot, Zeros(PadBytes(argv, top)), 0, 8);
    SliceLeft(Zeros(8), PtrsFrom(argv, top, 0), 0, 8);
    assert Zeros(8)[0..8] == Zeros(8);
  }

  /** Read as a 64-bit little-endian value, word j of argv is the address of
      argv[j], when the whole image lies in the 64-bit address space. */
  lemma ArgvPointerValue(argv: seq<seq<byte>>, top: int, j: nat)
    requires j < |argv| && 0 <= FinalRsp(argv, top) && top < U64
    ensures |Image(argv, top)| >= 16 + 8 * j
    ensures DecodeLE(Image(argv, top)[8 + 8 * j .. 16 + 8 * j]) == StrAddr(argv, top, j)
  {
    ImageWordAt(argv, top, j);
    StrBytesMono(argv, 0, j);
    assert Pow256(8) == 0x1_0000_0000_0000_0000;
    DecodeLEBytes(StrAddr(argv, top, j), 8);
  }

  // ---- the stack buffer ----

  /** m is orig with content written at index lo, and nothing else changed. */
  ghost predicate Written(m: seq<byte>, orig: seq<byte>, lo: int, content: seq<byte>)
  {
    && |m| == |orig| && 0 <= lo && lo + |content| <= |m|
    && forall k :: 0 <= k < |m| ==> m[k] == if lo <= k < lo + |content| then content[k - lo] else orig[k]
  }

  /** Writing bytes just below what was written before extends the writing downwards. */
  lemma PushWritten(m0: seq<byte>, m1: seq<byte>, orig: seq<byte>, lo: int, content: seq<byte>,
                    bytes: seq<byte>)
    requires Written(m0, orig, lo, content)
    requires Written(m1, m0, lo - |bytes|, bytes)
    ensures Written(m1, orig, lo - |bytes|, bytes + content)
  {
    var lo' := lo - |bytes|;
    forall k | 0 <= k < |m1|
      ensures m1[k] == if lo' <= k < lo' + |bytes + content| then (bytes + content)[k - lo'] else orig[k]
    {
      if lo' <= k < lo {
        assert (bytes + content)[k - lo'] == bytes[k - lo'];
      } else if lo <= k < lo + |content| {
        assert (bytes + content)[k - lo'] == content[k - lo];
      }
    }
  }

  /** memcpy (or memset, with zeros) of bytes to stack address base + at. */
  method StackWrite(mem: array<byte>, at: int, bytes: seq<byte>)
    requires 0 <= at && at + |bytes| <= mem.Length
    modifies mem
    ensures Written(mem[..], old(mem[..]), at, bytes)
  {
    forall k | at <= k < at + |bytes| {
      mem[k] := bytes[k - at];
    }
  }

  /** One push: move the stack pointer down by |bytes| and copy the bytes there. */
  method Push(frame: IntrFrame, mem: array<byte>, base: int, bytes: seq<byte>,
              ghost orig: seq<byte>, ghost content: seq<byte>)
    requires Written(mem[..], orig, frame.rsp - base, content)
    requires base <= frame.rsp - |bytes|
    modifies frame, mem
    ensures frame.rsp == old(frame.rsp) - |bytes|
    ensures frame.rsi == old(frame.rsi) && frame.rdi == old(frame.rdi)
    ensures Written(mem[..], orig, frame.rsp - base, bytes + content)
  {
    frame.rsp := frame.rsp - |bytes|;
    ghost var m0 := mem[..];
    StackWrite(mem, frame.rsp - base, bytes);
    PushWritten(m0, mem[..], orig, frame.rsp + |bytes| - base, content, bytes);
  }

  /** The first loop: push argv[argc-1] .. argv[0] with their NULs and record
      where each lands. */
  method PushStrings(argv: seq<seq<byte>>, frame: IntrFrame, mem: array<byte>, base: int,
                     argvAddr: array<int>, ghost orig: seq<byte>)
    requires NoNul(argv) && argvAddr.Length == |argv|
    requires Written(mem[..], orig, frame.rsp - base, [])
    requires base <= frame.rsp - StrBytes(argv, 0)
    modifies frame, mem, argvAddr
    ensures frame.rsp == old(frame.rsp) - StrBytes(argv, 0)
    ensures frame.rsi == old(frame.rsi) && frame.rdi == old(frame.rdi)
    ensures Written(mem[..], orig, frame.rsp - base, StringsFrom(argv, 0))
    ensures forall j :: 0 <= j < |argv| ==> argvAddr[j] == StrAddr(argv, old(frame.rsp), j)
  {
    ghost var top := frame.rsp;
    var i := |argv| - 1;
    ghost var pushed: seq<byte> := [];
    while i >= 0
      invariant -1 <= i < |argv|
      invariant frame.rsp == top - StrBytes(argv, i + 1)
      invariant frame.rsi == old(frame.rsi) && frame.rdi == old(frame.rdi)
      invariant pushed == StringsFrom(argv, i + 1)
      invariant Written(mem[..], orig, frame.rsp - base, pushed)
      invariant forall j :: i < j < |argv| ==> argvAddr[j] == StrAddr(argv, top, j)
    {
      StrBytesMono(argv, 0, i);
      Push(frame, mem, base, argv[i] + [0], orig, pushed);
      argvAddr[i] := frame.rsp;
      pushed := argv[i] + [0] + pushed;
      i := i - 1;
    }
  }

  /** The padding loop: push zero bytes until the stack pointer is a multiple of 8. */
  method PadToWord(frame: IntrFrame, mem: array<byte>, base: int, ghost orig: seq<byte>,
                   ghost content: seq<byte>)
    requires Written(mem[..], orig, frame.rsp - base, content)
    requires base <= frame.rsp - frame.rsp % 8
    modifies frame, mem
    ensures frame.rsp == old(frame.rsp) - old(frame.rsp) % 8
    ensures frame.rsi == old(frame.rsi) && frame.rdi == old(frame.rdi)
    ensures Written(mem[..], orig, frame.rsp - base, Zeros(old(frame.rsp) % 8) + content)
  {
    ghost var start := frame.rsp;
    ghost var p := 0;
    assert Zeros(0) + content == content;
    while frame.rsp % 8 != 0
      invariant frame.rsp == start - p && 0 <= p <= start % 8
      invariant frame.rsp % 8 == start % 8 - p
      invariant frame.rsi == old(frame.rsi) && frame.rdi == old(frame.rdi)
      invariant Written(mem[..], orig, frame.rsp - base, Zeros(p) + content)
      decreases frame.rsp % 8
    {
      Push(frame, mem, base, [0], orig, Zeros(p) + content);
      assert [0] + (Zeros(p) + content) == Zeros(p + 1) + content;
      p := p + 1;
    }
  }

  /** Pushing the word of iteration i in front of the words pushed so far. */
  lemma PtrsStep(argv: seq<seq<byte>>, top: int, i: nat, content: seq<byte>)
    requires i <= |argv|
    ensures (if i == |argv| then Zeros(8) else LEBytes(StrAddr(argv, top, i), 8))
            + (PtrsFrom(argv, top, i + 1) + content) == PtrsFrom(argv, top, i) + content
  {
    if i == |argv| {
      assert PtrsFrom(argv, top, i + 1) == [];
    }
  }

  /** The pointer loop: push the NULL sentinel, then argv_addr[argc-1] .. argv_addr[0]. */
  method PushPointers(argv: seq<seq<byte>>, frame: IntrFrame, mem: array<byte>, base: int,
                      argvAddr: array<int>, ghost top: int, ghost orig: seq<byte>, ghost content: seq<byte>)
    requires argvAddr.Length == |argv|
    requires forall j :: 0 <= j < |argv| ==> argvAddr[j] == StrAddr(argv, top, j)
    requires Written(mem[..], orig, frame.rsp - base, content)
    requires base <= frame.rsp - 8 * (|argv| + 1)
    modifies frame, mem
    ensures frame.rsp == old(frame.rsp) - 8 * (|argv| + 1)
    ensures frame.rsi == old(frame.rsi) && frame.rdi == old(frame.rdi)
    ensures Written(mem[..], orig, frame.rsp - base, PtrsFrom(argv, top, 0) + content)
  {
    ghost var start := frame.rsp;
    var i := |argv|;
    ghost var pushed := content;
    assert PtrsFrom(argv, top, |argv| + 1) + content == content;
    while i >= 0
      invariant -1 <= i <= |argv|
      invariant frame.rsp == start - 8 * (|argv| - i)
      invariant frame.rsi == old(frame.rsi) && frame.rdi == old(frame.rdi)
      invariant pushed == PtrsFrom(argv, top, i + 1) + content
      invariant Written(mem[..], orig, frame.rsp - base, pushed)
    {
      var word := if i == |argv| then Zeros(8) else LEBytes(argvAddr[i], 8);
      Push(frame, mem, base, word, orig, pushed);
      PtrsStep(argv, top, i, content);
      pushed := word + pushed;
      i := i - 1;
    }
  }

  /** The pushes build the image from the top down. */
  lemma ImageParts(argv: seq<seq<byte>>, top: int)
    ensures Zeros(8) + (PtrsFrom(argv, top, 0) + (Zeros(PadBytes(argv, top)) + StringsFrom(argv, 0)))
            == Image(argv, top)
  {
  }

  /** argument_stack: the stack from the new stack pointer up to the old one
      holds Image(argv, old rsp) and the rest of the buffer is unchanged; rsi
      points at argv[0]'s pointer and rdi holds argc. */
  method ArgumentStack(argv: seq<seq<byte>>, frame: IntrFrame, mem: array<byte>, base: int)
    requires NoNul(argv)
    requires base <= FinalRsp(argv, frame.rsp) && frame.rsp <= base + mem.Length
    modifies frame, mem
    ensures frame.rsp == FinalRsp(argv, old(frame.rsp))
    ensures frame.rsi == frame.rsp + 8 && frame.rdi == |argv|
    ensures Written(mem[..], old(mem[..]), frame.rsp - base, Image(argv, old(frame.rsp)))
  {
    ghost var orig := mem[..];
    ghost var top := frame.rsp;
    ghost var strs := top - StrBytes(argv, 0);
    assert strs - strs % 8 == strs - PadBytes(argv, top);
    var argvAddr := new int[|argv|];
    PushStrings(argv, frame, mem, base, argvAddr, orig);
    PadToWord(frame, mem, base, orig, StringsFrom(argv, 0));
    PushPointers(argv, frame, mem, base, argvAddr, top, orig,
                 Zeros(PadBytes(argv, top)) + StringsFrom(argv, 0));
    frame.rsi := frame.rsp;
    frame.rdi := |argv|;
    Push(frame, mem, base, Zeros(8), orig,
         PtrsFrom(argv, top, 0) + (Zeros(PadBytes(argv, top)) + StringsFrom(argv, 0)));
    ImageParts(argv, top);
  }
}
