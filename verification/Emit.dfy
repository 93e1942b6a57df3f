/** Writing tags: literals and copies as the compressor emits them, over-wide stores and all, with the meaning the
    format gives them. */
module Emit {
  import opened Bytes
  import opened Memory
  import opened Options
  import opened SnappyFormat

  // ---------------------------------------------------------------- logarithms

  function Pow2(n: nat): (p: nat)
    ensures p > 0
  {
    if n == 0 then 1 else 2 * Pow2(n - 1)
  }

  lemma Twice(p: nat, q: nat)
    ensures 2 * p * q == 2 * (p * q)
  {
  }

  lemma {:induction false} Pow2Adds(a: nat, b: nat)
    ensures Pow2(a + b) == Pow2(a) * Pow2(b)
  {
    if a > 0 {
      Pow2Adds(a - 1, b);
      Twice(Pow2(a - 1), Pow2(b));
      assert a + b - 1 == a - 1 + b;
    }
  }

  /** Dividing once more: `x` whole steps of `s` inside `value`. */
  lemma Narrow(n: nat, value: nat, p: nat, s: nat)
    requires s > 0 && value * p <= n < (value + 1) * p
    ensures var x := value / s; x * (p * s) <= n < (x + 1) * (p * s)
  {
    var x := value / s;
    assert x * s <= value && value + 1 <= (x + 1) * s;
    assert x * s * p <= value * p && (value + 1) * p <= (x + 1) * s * p;
    assert x * (p * s) == x * s * p && (x + 1) * (p * s) == (x + 1) * s * p;
  }

  /** `n` has `value` in front of its low `log` bits. */
  predicate Bracket(n: nat, value: nat, log: nat) {
    value * Pow2(log) <= n < (value + 1) * Pow2(log)
  }

  /** 1 << i, and two to that power. */
  function ShiftOf(i: int): nat {
    if i == 4 then 16 else if i == 3 then 8 else if i == 2 then 4 else if i == 1 then 2 else 1
  }

  function StepOf(i: int): nat {
    if i == 4 then 0x1_0000 else if i == 3 then 0x100 else if i == 2 then 0x10 else if i == 1 then 4 else 2
  }

  lemma StepIsPower(i: int)
    ensures StepOf(i) == Pow2(ShiftOf(i))
  {
    assert Pow2(4) == 16;
    Pow2Adds(4, 4);
    Pow2Adds(8, 8);
  }

  lemma BracketStep(n: nat, value: nat, log: nat, i: int)
    requires Bracket(n, value, log)
    ensures Bracket(n, value / StepOf(i), log + ShiftOf(i))
  {
    hide StepOf, ShiftOf;
    StepIsPower(i);
    Narrow(n, value, Pow2(log), StepOf(i));
    Pow2Adds(log, ShiftOf(i));
  }

  /** Bits::Log2FloorNonZero. */
  method Log2FloorNonZero(n: nat) returns (log: nat)
    requires 0 < n < 0x1_0000_0000
    ensures log < 32 && Pow2(log) <= n < 2 * Pow2(log)
  {
    hide Bracket, Pow2;
    log := 0;
    var value := n;
    var i := 4;
    WholeBracket(n);
    while i >= 0
      invariant -1 <= i <= 4 && value > 0 && Bracket(n, value, log)
      invariant i == 4 ==> value < 0x1_0000_0000
      invariant i < 4 ==> value < StepOf(i + 1)
      invariant log + (if i >= 0 then 2 * ShiftOf(i) else 1) <= 32
    {
      var x := value / StepOf(i);
      BracketStep(n, value, log, i);
      if x != 0 {
        value := x;
        log := log + ShiftOf(i);
      }
      i := i - 1;
    }
    BracketOfOne(n, log);
  }

  lemma WholeBracket(n: nat)
    ensures Bracket(n, n, 0)
  {
  }

  lemma BracketOfOne(n: nat, log: nat)
    requires Bracket(n, 1, log)
    ensures Pow2(log) <= n < 2 * Pow2(log)
  {
  }

  // ---------------------------------------------------------------- literals

  /** How many bytes hold `n`. */
  function ByteCount(n: nat): (k: nat)
    ensures 1 <= k <= 4
  {
    if n < 0x100 then 1 else if n < 0x1_0000 then 2 else if n < 0x100_0000 then 3 else 4
  }

  lemma {:induction false} Pow2Monotone(a: nat, b: nat)
    requires a <= b
    ensures Pow2(a) <= Pow2(b)
    decreases b
  {
    if a < b {
      Pow2Monotone(a, b - 1);
    }
  }

  lemma CountFromLog(n: nat, log: nat)
    requires log < 32 && Pow2(log) <= n < 2 * Pow2(log)
    ensures ByteCount(n) == log / 8 + 1
  {
    assert Pow2(8) == 0x100 && Pow2(16) == 0x1_0000 && Pow2(24) == 0x100_0000 by {
      assert Pow2(4) == 16;
      Pow2Adds(4, 4);
      Pow2Adds(8, 8);
      Pow2Adds(16, 8);
    }
    assert 2 * Pow2(log) == Pow2(log + 1);
    hide Pow2;
    if log < 8 {
      Pow2Monotone(log + 1, 8);
    } else if log < 16 {
      Pow2Monotone(8, log);
      Pow2Monotone(log + 1, 16);
    } else if log < 24 {
      Pow2Monotone(16, log);
      Pow2Monotone(log + 1, 24);
    } else {
      Pow2Monotone(24, log);
    }
  }

  lemma {:induction false} LowBytesFirst(x: nat, k: nat, n: nat)
    requires k <= n
    ensures ToLE(x, n)[..k] == ToLE(x, k)
  {
    if k > 0 {
      LowBytesFirst(x / 256, k - 1, n - 1);
    }
  }

  /** The tag of a literal of `len` bytes. */
  function LiteralTag(len: nat): (t: seq<byte>)
    requires 0 < len < 0x1_0000_0000
    ensures |t| == if len <= 60 then 1 else 1 + ByteCount(len - 1)
  {
    if len <= 60 then [4 * (len - 1)] else [4 * (59 + ByteCount(len - 1))] + ToLE(len - 1, ByteCount(len - 1))
  }

  lemma CountFits(n: nat)
    requires n < 0x1_0000_0000
    ensures n < Pow256(ByteCount(n))
  {
    Pow256Values();
  }

  lemma LiteralTagMeans(len: nat)
    requires 0 < len < 0x1_0000_0000
    ensures var t := LiteralTag(len);
      |t| == 1 + TagLength(t[0]) && DescribedElement(t[0], FromLE(t[1..])) == Literal(len)
  {
    if len > 60 {
      CountFits(len - 1);
      LERoundTrip(len - 1, ByteCount(len - 1));
      assert LiteralTag(len)[1..] == ToLE(len - 1, ByteCount(len - 1));
    }
  }

  lemma TagParts(len: nat)
    requires 0 < len < 0x1_0000_0000
    ensures var n := len - 1;
      LiteralTag(len) == if n < 60 then [4 * n] else [4 * (59 + ByteCount(n))] + ToLE(n, ByteCount(n))
  {
  }

  /** The tag of a literal; a length that does not fit in it is stored as a whole word after it. */
  method EmitLiteralTag(op: array<byte>, at: nat, len: nat) returns (pos: nat)
    requires 0 < len < 0x1_0000_0000 && at + (if len <= 60 then 1 else 5) <= op.Length
    modifies op
    ensures pos == at + |LiteralTag(len)| && op[at..pos] == LiteralTag(len)
    ensures forall i :: 0 <= i < at ==> op[i] == old(op[i])
  {
    hide ToLE, ByteCount, Pow2, LiteralTag;
    var n := len - 1;
    pos := at + 1;
    TagParts(len);
    if n < 60 {
      op[at] := 4 * n;
      assert op[at..pos] == [op[at]];
    } else {
      var log := Log2FloorNonZero(n);
      CountFromLog(n, log);
      var count := log / 8 + 1;
      op[at] := 4 * (59 + count);
      LowBytesFirst(n, count, 4);
      Store(op, pos, ToLE(n, 4));
      assert op[pos..pos + count] == ToLE(n, 4)[..count];
      pos := pos + count;
      assert op[at..pos] == [op[at]] + op[at + 1..pos];
    }
  }

  /** The fast path of EmitLiteral: sixteen bytes are stored whatever `len`. */
  method EmitShortLiteral(op: array<byte>, at: nat, input: seq<byte>, from: nat, len: nat) returns (next: nat)
    requires 0 < len <= 16 && from + 16 <= |input| && at + 17 <= op.Length
    modifies op
    ensures next == at + 1 + len && op[at..next] == LiteralTag(len) + input[from..from + len]
    ensures forall i :: 0 <= i < at ==> op[i] == old(op[i])
  {
    assert LiteralTag(len) == [4 * (len - 1)];
    hide LiteralTag;
    ghost var data := input[from..from + 16];
    op[at] := 4 * (len - 1);
    Store(op, at + 1, input[from..from + 16]);
    next := at + 1 + len;
    assert op[at + 1..at + 17] == data && data[..len] == input[from..from + len];
    assert op[at + 1..next] == op[at + 1..at + 17][..len];
    assert op[at..next] == [op[at]] + op[at + 1..next];
  }

  /** EmitLiteral. Off the fast path, the data overwrites what it does not need of the word in the tag. */
  method EmitLiteral(op: array<byte>, at: nat, input: seq<byte>, from: nat, len: nat, fast: bool) returns (next: nat)
    requires 0 < len < 0x1_0000_0000 && from + len <= |input| && at + |LiteralTag(len)| + len <= op.Length
    requires fast && len <= 16 ==> from + 16 <= |input| && at + 17 <= op.Length
    modifies op
    ensures next == at + |LiteralTag(len)| + len && op[at..next] == LiteralTag(len) + input[from..from + len]
    ensures forall i :: 0 <= i < at ==> op[i] == old(op[i])
  {
    if fast && len <= 16 {
      next := EmitShortLiteral(op, at, input, from, len);
    } else {
      next := EmitLongLiteral(op, at, input, from, len);
    }
  }

  method EmitLongLiteral(op: array<byte>, at: nat, input: seq<byte>, from: nat, len: nat) returns (next: nat)
    requires 0 < len < 0x1_0000_0000 && from + len <= |input| && at + |LiteralTag(len)| + len <= op.Length
    modifies op
    ensures next == at + |LiteralTag(len)| + len && op[at..next] == LiteralTag(len) + input[from..from + len]
    ensures forall i :: 0 <= i < at ==> op[i] == old(op[i])
  {
    hide LiteralTag;
    var pos := EmitLiteralTag(op, at, len);
    ghost var tag := op[at..pos];
    Store(op, pos, input[from..from + len]);
    next := pos + len;
    assert op[at..pos] == tag;
    assert op[at..next] == op[at..pos] + op[pos..next];
  }

  // ---------------------------------------------------------------- copies

  function CopyTag(offset: nat, len: nat, short: bool): (t: seq<byte>)
    requires offset < 0x1_0000 && 4 <= len <= 64 && short == (len < 12)
    ensures |t| == if short && offset < 2048 then 2 else 3
  {
    if short && offset < 2048 then [1 + 4 * (len - 4) + 32 * (offset / 256), offset % 256]
    else [2 + 4 * (len - 1), offset % 256, offset / 256]
  }

  lemma OneByte(b: byte)
    ensures FromLE([b]) == b
  {
    assert [b][1..] == [];
  }

  lemma ShortTag(high: nat, l: nat)
    requires high < 8 && l < 8
    ensures var c := 1 + 4 * l + 32 * high; c < 256 && c % 4 == 1 && c / 4 % 8 == l && c / 32 == high
  {
  }

  lemma LongTag(l: nat)
    requires l < 64
    ensures var c := 2 + 4 * l; c < 256 && c % 4 == 2 && c / 4 == l
  {
  }

  lemma CopyTagMeans(offset: nat, len: nat, short: bool)
    requires offset < 0x1_0000 && 4 <= len <= 64 && short == (len < 12)
    ensures var t := CopyTag(offset, len, short);
      |t| == 1 + TagLength(t[0]) && DescribedElement(t[0], FromLE(t[1..])) == Copy(offset, len)
  {
    var t := CopyTag(offset, len, short);
    if short && offset < 2048 {
      ShortTag(offset / 256, len - 4);
      assert t[1..] == [offset % 256];
      OneByte(offset % 256);
    } else {
      LongTag(len - 1);
      assert t[1..] == [offset % 256, offset / 256];
      assert t[1..][1..] == [offset / 256];
      OneByte(offset / 256);
    }
  }

  /** EmitCopyAtMost64; the general form stores four bytes and keeps three. */
  method EmitCopyAtMost64(op: array<byte>, at: nat, offset: nat, len: nat, short: bool) returns (next: nat)
    requires offset < 0x1_0000 && 4 <= len <= 64 && short == (len < 12) && at + 4 <= op.Length
    modifies op
    ensures next == at + |CopyTag(offset, len, short)| && op[at..next] == CopyTag(offset, len, short)
    ensures forall i :: 0 <= i < at ==> op[i] == old(op[i])
  {
    if short && offset < 2048 {
      op[at] := 1 + 4 * (len - 4) + 32 * (offset / 256);
      op[at + 1] := offset % 256;
      return at + 2;
    } else {
      var u := 2 + 4 * (len - 1) + 256 * offset;
      WordBytes(2 + 4 * (len - 1), offset);
      Store(op, at, ToLE(u, 4));
      return at + 3;
    }
  }

  lemma WordBytes(low: nat, high: nat)
    requires low < 256 && high < 0x1_0000
    ensures ToLE(low + 256 * high, 4) == [low, high % 256, high / 256, 0]
  {
    var w := low + 256 * high;
    assert w % 256 == low && w / 256 == high;
    assert ToLE(w, 4) == [low] + ToLE(high, 3);
    assert ToLE(high, 3) == [high % 256] + ToLE(high / 256, 2);
    assert ToLE(high / 256, 2) == [high / 256 % 256] + ToLE(high / 256 / 256, 1);
  }

  /** A stream that decodes, with one more copy after it. */
  lemma OneMoreCopy(a: seq<byte>, out: seq<byte>, mid: seq<byte>, limit: int, offset: nat, len: nat, short: bool)
    requires offset < 0x1_0000 && 4 <= len <= 64 && short == (len < 12)
    requires Described(a, out, limit) == Some(mid) && 1 <= offset <= |mid| && |mid| + len <= limit
    ensures Described(a + CopyTag(offset, len, short), out, limit) == Some(Repeat(mid, offset, len))
  {
    var tag := CopyTag(offset, len, short);
    CopyTagMeans(offset, len, short);
    DescribedConcat(a, tag, out, limit);
    DescribedCopy(tag, offset, len, [], mid, limit);
    assert tag + [] == tag;
  }

  /** What is written from `at` to `next` copies `done` of the `len0` bytes. */
  ghost predicate Copied(op: array<byte>, at: nat, next: nat, offset: nat, out: seq<byte>, len0: nat, done: nat)
    reads op
  {
    && at <= next <= op.Length && 1 <= offset <= |out|
    && Described(op[at..next], out, |out| + len0) == Some(Repeat(out, offset, done))
  }

  lemma NothingCopied(op: array<byte>, at: nat, offset: nat, out: seq<byte>, len0: nat)
    requires at <= op.Length && 1 <= offset <= |out|
    ensures Copied(op, at, at, offset, out, len0, 0)
  {
  }

  /** One piece of a copy, after `done` of its bytes. */
  method EmitPiece(op: array<byte>, ghost at: nat, pos: nat, offset: nat, len: nat, short: bool,
                   ghost out: seq<byte>, ghost len0: nat, ghost done: nat) returns (next: nat)
    requires offset < 0x1_0000 && 4 <= len <= 64 && short == (len < 12) && pos + 4 <= op.Length && done + len <= len0
    requires Copied(op, at, pos, offset, out, len0, done)
    modifies op
    ensures pos < next < pos + len && next <= op.Length && next <= pos + 3
    ensures short && offset < 2048 ==> next == pos + 2
    ensures forall i :: 0 <= i < at ==> op[i] == old(op[i])
    ensures Copied(op, at, next, offset, out, len0, done + len)
  {
    hide Described, Repeat, CopyTag;
    ghost var a := op[at..pos];
    next := EmitCopyAtMost64(op, pos, offset, len, short);
    assert op[at..pos] == a;
    assert op[at..next] == a + CopyTag(offset, len, short);
    OneMoreCopy(a, out, Repeat(out, offset, done), |out| + len0, offset, len, short);
    RepeatTwice(out, offset, done, len);
  }

  /** Pieces of 64 while at least 68 bytes are left. */
  method EmitChunks(op: array<byte>, at: nat, offset: nat, len0: nat, ghost out: seq<byte>)
    returns (next: nat, len: nat)
    requires 1 <= offset <= |out| && offset < 0x1_0000 && 12 <= len0 && at + len0 <= op.Length
    modifies op
    ensures 4 <= len < 68 && len <= len0 && at <= next <= at + (len0 - len)
    ensures (len0 - len) % 64 == 0 && next <= at + 3 * ((len0 - len) / 64)
    ensures Copied(op, at, next, offset, out, len0, len0 - len)
    ensures forall i :: 0 <= i < at ==> op[i] == old(op[i])
  {
    hide *;
    NothingCopied(op, at, offset, out, len0);
    next, len := at, len0;
    while len >= 68
      invariant 4 <= len <= len0 && at <= next <= at + (len0 - len)
      invariant (len0 - len) % 64 == 0 && next <= at + 3 * ((len0 - len) / 64)
      invariant forall i :: 0 <= i < at ==> op[i] == old(op[i])
      invariant Copied(op, at, next, offset, out, len0, len0 - len)
    {
      next := EmitPiece(op, at, next, offset, 64, false, out, len0, len0 - len);
      len := len - 64;
    }
  }

  /** How many copies it takes to copy `len` bytes, 64 being the most that one can. */
  function Pieces(len: nat): nat {
    (len + 63) / 64
  }

  /** EmitCopy: a long copy goes out in pieces of 64 or 60, so that what remains is at least 4. The pieces together
      do what the whole would, in fewer bytes than it stands for, and there are no more of them than there must be. */
  method EmitCopy(op: array<byte>, at: nat, offset: nat, len0: nat, short: bool, ghost out: seq<byte>)
    returns (next: nat)
    requires 1 <= offset <= |out| && offset < 0x1_0000 && 4 <= len0 && short == (len0 < 12) && at + len0 <= op.Length
    modifies op
    ensures at < next < at + len0 && next <= at + 3 * Pieces(len0)
    ensures short && offset < 2048 ==> next == at + 2
    ensures Described(op[at..next], out, |out| + len0) == Some(Repeat(out, offset, len0))
    ensures forall i :: 0 <= i < at ==> op[i] == old(op[i])
  {
    hide Described, Repeat;
    if short {
      NothingCopied(op, at, offset, out, len0);
      next := EmitPiece(op, at, at, offset, len0, true, out, len0, 0);
    } else {
      next := EmitLongCopy(op, at, offset, len0, out);
    }
  }

  lemma LastPieces(len0: nat, len: nat)
    requires 4 <= len < 68 && len <= len0 && (len0 - len) % 64 == 0
    ensures Pieces(len0) == (len0 - len) / 64 + if len > 64 then 2 else 1
  {
  }

  method EmitLongCopy(op: array<byte>, at: nat, offset: nat, len0: nat, ghost out: seq<byte>) returns (next: nat)
    requires 1 <= offset <= |out| && offset < 0x1_0000 && 12 <= len0 && at + len0 <= op.Length
    modifies op
    ensures at < next < at + len0 && next <= at + 3 * Pieces(len0)
    ensures Copied(op, at, next, offset, out, len0, len0)
    ensures forall i :: 0 <= i < at ==> op[i] == old(op[i])
  {
    hide *;
    var len;
    next, len := EmitChunks(op, at, offset, len0, out);
    LastPieces(len0, len);
    if len > 64 {
      next := EmitPiece(op, at, next, offset, 60, false, out, len0, len0 - len);
      len := len - 60;
    }
    next := EmitPiece(op, at, next, offset, len, len < 12, out, len0, len0 - len);
  }
}
