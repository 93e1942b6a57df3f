/** Compressing one fragment: the scan for matches through a hash table, and the literals and copies emitted. */
module Compressor {
  import opened Bytes
  import opened Emit
  import opened FindMatch
  import opened Options
  import opened Search
  import opened SnappyFormat

  const INPUT_MARGIN: nat := 15

  function MaxCompressedLength(n: nat): nat {
    32 + n + n / 6
  }

  /** What a fragment can take, over-wide stores included; well inside MaxCompressedLength. */
  function Room(n: nat): nat {
    n + n / 65 + 3
  }

  // ---------------------------------------------------------------- what has been emitted

  /** From `start` to `at`, the output stands for the first `p` bytes of the input. */
  ghost predicate Emitted(op: array<byte>, start: nat, at: nat, input: seq<byte>, p: nat)
    reads op
  {
    start <= at <= op.Length && p <= |input| && Described(op[start..at], [], |input|) == Some(input[..p])
  }

  /** Between items: one byte of blowup for every 65 of input at most. */
  predicate Tight(start: int, at: int, p: int) {
    65 * (at - start - p) <= p
  }

  /** Before a copy, which will win at least one byte back over four or more. */
  predicate TightBeforeCopy(start: int, at: int, p: int) {
    65 * (at - start - p - 1) <= p + 4
  }

  lemma LiteralStaysTight(start: int, at: int, p: nat, len: nat)
    requires 0 < len <= BLOCK_SIZE && Tight(start, at, p)
    ensures TightBeforeCopy(start, at + |LiteralTag(len)| + len, p + len)
    ensures |LiteralTag(len)| <= 3
  {
  }

  lemma LiteralDecodes(a: seq<byte>, input: seq<byte>, p: nat, len: nat)
    requires 0 < len && p + len <= |input| < 0x1_0000_0000 && Described(a, [], |input|) == Some(input[..p])
    ensures Described(a + (LiteralTag(len) + input[p..p + len]), [], |input|) == Some(input[..p + len])
  {
    hide LiteralTag, DescribedElement, TagLength, FromLE;
    var tag, data := LiteralTag(len), input[p..p + len];
    LiteralTagMeans(len);
    DescribedConcat(a, tag + data, [], |input|);
    DescribedLiteral(tag, data, [], input[..p], |input|);
    assert tag + data + [] == tag + data;
    assert input[..p] + data == input[..p + len];
  }

  /** A match is a copy: repeating from the candidate gives the bytes that matched. */
  lemma MatchIsRepeat(input: seq<byte>, candidate: nat, p: nat, m: nat)
    requires candidate < p && p + m <= |input| && Same(input, candidate, p, m)
    ensures Repeat(input[..p], p - candidate, m) == input[..p + m]
  {
    var r := input[..p + m];
    forall i | p <= i < p + m ensures r[i] == r[i - (p - candidate)] {
      assert input[p..p + m][i - p] == input[candidate..candidate + m][i - p];
    }
    PeriodicIsRepeat(input[..p], p - candidate, r);
  }

  lemma CopyDecodes(a: seq<byte>, b: seq<byte>, input: seq<byte>, candidate: nat, p: nat, m: nat)
    requires candidate < p && p + m <= |input| && Same(input, candidate, p, m)
    requires Described(a, [], |input|) == Some(input[..p])
    requires Described(b, input[..p], p + m) == Some(Repeat(input[..p], p - candidate, m))
    ensures Described(a + b, [], |input|) == Some(input[..p + m])
  {
    hide Described, Repeat;
    MatchIsRepeat(input, candidate, p, m);
    DescribedConcat(a, b, [], |input|);
    DescribedInContext(b, [], input[..p], p + m, |input|);
    assert [] + input[..p] == input[..p] && [] + input[..p + m] == input[..p + m];
  }

  /** Emits the pending input, if any, as one literal. */
  method EmitPending(op: array<byte>, start: nat, at: nat, input: seq<byte>, p: nat, ip: nat, fast: bool)
    returns (next: nat)
    requires Emitted(op, start, at, input, p) && p < ip <= |input| <= BLOCK_SIZE && Tight(start, at, p)
    requires start + Room(|input|) <= op.Length
    requires fast ==> p + 16 <= |input|
    modifies op
    ensures Emitted(op, start, next, input, ip) && TightBeforeCopy(start, next, ip) && next <= at + 3 + (ip - p)
    ensures ip - p <= 60 ==> next == at + 1 + (ip - p)
    ensures forall i :: 0 <= i < start ==> op[i] == old(op[i])
  {
    hide Described, LiteralTag;
    ghost var a, len := op[start..at], ip - p;
    LiteralStaysTight(start, at, p, len);
    next := EmitLiteral(op, at, input, p, ip - p, fast);
    assert op[start..at] == a;
    assert op[start..next] == a + op[at..next];
    LiteralDecodes(a, input, p, len);
  }

  // ---------------------------------------------------------------- finding matches

  /** Every position in the table is before `ip`. */
  ghost predicate TableBelow(table: array<uint16>, ip: nat)
    reads table
  {
    forall h :: 0 <= h < table.Length ==> table[h] < ip
  }

  ghost predicate IntoTable(hash: seq<byte> -> nat, table: array<uint16>) {
    forall b :: hash(b) < table.Length
  }

  /** Looks for a place at which four bytes repeat earlier ones, ever more coarsely; gives up near the end. It makes
      `k` probes that miss; the next one hits, or comes too close to the end. */
  method Scan(input: seq<byte>, ip0: nat, hash0: nat, table: array<uint16>, hash: seq<byte> -> nat)
    returns (found: bool, ip: nat, candidate: nat, ghost k: nat)
    requires 1 <= ip0 && INPUT_MARGIN <= |input| <= BLOCK_SIZE && ip0 + INPUT_MARGIN <= |input| + 1
    requires IntoTable(hash, table) && hash0 == hash(input[ip0..ip0 + 4]) && TableBelow(table, ip0)
    modifies table
    ensures ip == ip0 + Step(k) && Misses(input, ip0, old(table[..]), hash, k)
    ensures found ==> candidate == Candidate(input, ip0, old(table[..]), hash, k)
    ensures found ==> ip0 <= ip && ip + 16 <= |input| && candidate < ip && Same(input, candidate, ip, 4)
    ensures found ==> TableBelow(table, ip + 1)
    ensures !found ==> ip0 + Step(k + 1) + INPUT_MARGIN > |input|
  {
    hide Hit, Candidate, Misses, TableHolds, Step, Same, Slot;
    ghost var was := table[..];
    NoProbeYet(table, input, ip0, hash);
    var ipLimit := |input| - INPUT_MARGIN;
    var skip := 32;
    var nextIp, nextHash := ip0, hash0;
    k := 0;
    while true
      invariant ip0 <= nextIp && (nextIp <= ipLimit || nextIp == ip0)
      invariant nextHash == hash(input[nextIp..nextIp + 4]) && TableBelow(table, nextIp)
      invariant skip == 32 + (nextIp - ip0) && nextIp == ip0 + Step(k) && Misses(input, ip0, was, hash, k)
      invariant TableHolds(table, input, ip0, was, hash, k)
      decreases ipLimit - nextIp
    {
      ip := nextIp;
      var h := nextHash;
      assert h == hash(input[ip..ip + 4]);
      var between := skip / 32;
      skip := skip + between;
      nextIp := ip + between;
      NextStep(k);
      if nextIp > ipLimit {
        return false, ip, 0, k;
      }
      nextHash := hash(input[nextIp..nextIp + 4]);
      var hit;
      hit, candidate := Probe(input, ip, h, table, hash, ip0, was, k);
      if hit {
        return true, ip, candidate, k;
      }
      OneMoreMiss(input, ip0, was, hash, k);
      k := k + 1;
    }
  }

  /** One probe: looks its candidate up, and puts itself in that place. */
  method Probe(input: seq<byte>, ip: nat, h: nat, table: array<uint16>, hash: seq<byte> -> nat, ghost ip0: nat,
               ghost was: seq<uint16>, ghost k: nat) returns (hit: bool, candidate: nat)
    requires ip == ip0 + Step(k) && ip + 4 <= |input| <= BLOCK_SIZE && h == hash(input[ip..ip + 4])
    requires IntoTable(hash, table) && TableBelow(table, ip) && TableHolds(table, input, ip0, was, hash, k)
    modifies table
    ensures candidate == Candidate(input, ip0, was, hash, k) && hit == Hit(input, ip0, was, hash, k)
    ensures candidate < ip && (hit ==> Same(input, candidate, ip, 4))
    ensures TableBelow(table, ip + 1) && TableHolds(table, input, ip0, was, hash, k + 1)
  {
    hide Hit, Candidate;
    candidate := table[h];
    ProbeMeans(table, input, ip0, was, hash, k);
    hit := input[ip..ip + 4] == input[candidate..candidate + 4];
    table[h] := ip;
  }

  lemma NoProbeYet(table: array<uint16>, input: seq<byte>, ip: nat, hash: seq<byte> -> nat)
    ensures Step(0) == 0 && Misses(input, ip, table[..], hash, 0)
    ensures TableHolds(table, input, ip, table[..], hash, 0)
  {
  }

  lemma OneMoreMiss(input: seq<byte>, ip: nat, was: seq<uint16>, hash: seq<byte> -> nat, k: nat)
    requires Misses(input, ip, was, hash, k) && !Hit(input, ip, was, hash, k)
    ensures Misses(input, ip, was, hash, k + 1)
  {
  }

  lemma NextStep(k: nat)
    ensures Step(k + 1) == Step(k) + (32 + Step(k)) / 32
  {
  }

  /** The table is as `k` probes leave it. */
  ghost predicate TableHolds(table: array<uint16>, input: seq<byte>, ip: nat, was: seq<uint16>,
                             hash: seq<byte> -> nat, k: nat)
    reads table
  {
    forall h :: 0 <= h < table.Length ==> table[h] == Slot(input, ip, was, hash, k, h)
  }

  /** The slot of the next probe holds its candidate, and comparing four bytes with it tells a hit. */
  lemma ProbeMeans(table: array<uint16>, input: seq<byte>, ip: nat, was: seq<uint16>, hash: seq<byte> -> nat, k: nat)
    requires TableHolds(table, input, ip, was, hash, k) && IntoTable(hash, table) && ip + Step(k) + 4 <= |input|
    requires table[hash(input[ip + Step(k)..ip + Step(k) + 4])] < ip + Step(k)
    ensures var at := ip + Step(k);
      var c := table[hash(input[at..at + 4])];
      c == Candidate(input, ip, was, hash, k)
      && (Hit(input, ip, was, hash, k) <==> input[at..at + 4] == input[c..c + 4])
  {
    hide Slot, Step;
  }

  /** Emits the longest copy from `candidate`, four bytes of which are known to match. */
  method CopyMatch(op: array<byte>, start: nat, at: nat, input: seq<byte>, candidate: nat, base: nat, wide: bool)
    returns (next: nat, ip: nat)
    requires Emitted(op, start, at, input, base) && TightBeforeCopy(start, at, base)
    requires |input| <= BLOCK_SIZE && start + Room(|input|) <= op.Length
    requires candidate < base && base + 16 <= |input| && Same(input, candidate, base, 4)
    modifies op
    ensures base + 4 <= ip <= |input| && Emitted(op, start, next, input, ip) && Tight(start, next, ip)
    ensures IsMatchLength(input, candidate, base, |input|, ip - base) && next <= at + 3 * Pieces(ip - base)
    ensures forall i :: 0 <= i < start ==> op[i] == old(op[i])
  {
    hide Described, Repeat, IsMatchLength, Pieces;
    var n, short := MatchFrom(input, candidate, base, wide);
    var matched := 4 + n;
    ip := base + matched;
    MatchIsSame(input, candidate, base, |input|, matched);
    ghost var a, out := op[start..at], input[..base];
    next := EmitCopy(op, at, base - candidate, matched, short, out);
    assert op[start..at] == a;
    assert op[start..next] == a + op[at..next];
    CopyDecodes(a, op[at..next], input, candidate, base, matched);
  }

  /** How much further than four bytes the match goes. */
  method MatchFrom(input: seq<byte>, candidate: nat, base: nat, wide: bool) returns (n: nat, short: bool)
    requires candidate < base && base + 4 <= |input| && Same(input, candidate, base, 4)
    ensures IsMatchLength(input, candidate, base, |input|, 4 + n) && short == (n < 8)
  {
    if wide {
      n, short := FindMatchLength64(input, candidate + 4, base + 4, |input|);
    } else {
      n, short := FindMatchLength32(input, candidate + 4, base + 4, |input|);
    }
    MatchGoesOn(input, candidate, base, |input|, 4, n);
  }

  /** Copies as long as the input after one copy starts another; near the end, stops for good. */
  method EmitMatches(op: array<byte>, start: nat, at0: nat, input: seq<byte>, candidate0: nat, ip0: nat,
                     table: array<uint16>, hash: seq<byte> -> nat, wide: bool)
    returns (at: nat, ip: nat, done: bool)
    requires Emitted(op, start, at0, input, ip0) && TightBeforeCopy(start, at0, ip0)
    requires |input| <= BLOCK_SIZE && start + Room(|input|) <= op.Length
    requires candidate0 < ip0 && ip0 + 16 <= |input| && Same(input, candidate0, ip0, 4)
    requires op as object != table as object && IntoTable(hash, table) && TableBelow(table, ip0 + 1)
    modifies op, table
    ensures ip0 < ip <= |input| && Emitted(op, start, at, input, ip) && Tight(start, at, ip)
    ensures !done ==> ip + INPUT_MARGIN < |input| && TableBelow(table, ip + 1) && Entered(table, input, ip, hash)
    ensures Same(input, candidate0, ip0, |input| - ip0) ==>
      done && ip == |input| && at <= at0 + 3 * Pieces(|input| - ip0)
    ensures forall i :: 0 <= i < start ==> op[i] == old(op[i])
  {
    hide Described, IsMatchLength, Pieces;
    var ipLimit := |input| - INPUT_MARGIN;
    var candidate: nat := candidate0;
    at, ip := at0, ip0;
    while true
      invariant ip0 <= ip && ip + 16 <= |input| && Emitted(op, start, at, input, ip) && TightBeforeCopy(start, at, ip)
      invariant candidate < ip && Same(input, candidate, ip, 4) && TableBelow(table, ip + 1)
      invariant (ip == ip0 && at == at0 && candidate == candidate0) || !Same(input, candidate0, ip0, |input| - ip0)
      invariant forall i :: 0 <= i < start ==> op[i] == old(op[i])
      decreases |input| - ip
    {
      ghost var base, from := ip, candidate;
      at, ip := CopyMatch(op, start, at, input, candidate, ip, wide);
      LongestToTheEnd(input, from, base, ip - base);
      if ip >= ipLimit {
        return at, ip, true;
      }
      table[hash(input[ip - 1..ip + 3])] := ip - 1;
      var h := hash(input[ip..ip + 4]);
      candidate := table[h];
      var candidateBytes := input[candidate..candidate + 4];
      table[h] := ip;
      if input[ip..ip + 4] != candidateBytes {
        assert Window(input, ip) == input[ip..ip + 4] && Window(input, ip - 1) == input[ip - 1..ip + 3];
        return at, ip, false;
      }
    }
  }

  /** The last two positions are in the table. */
  ghost predicate Entered(table: array<uint16>, input: seq<byte>, ip: nat, hash: seq<byte> -> nat)
    requires 1 <= ip && IntoTable(hash, table)
    reads table
  {
    var last, before := hash(Window(input, ip)), hash(Window(input, ip - 1));
    table[last] == ip && (before != last ==> table[before] == ip - 1)
  }

  /** A match that could go on to the end does. */
  lemma LongestToTheEnd(input: seq<byte>, candidate: nat, base: nat, n: nat)
    requires IsMatchLength(input, candidate, base, |input|, n)
    ensures Same(input, candidate, base, |input| - base) ==> n == |input| - base
  {
    if Same(input, candidate, base, |input| - base) {
      MatchIsLongest(input, candidate, base, |input|, n, |input| - base);
    }
  }

  ghost predicate Zero(table: array<uint16>)
    reads table
  {
    forall h :: 0 <= h < table.Length ==> table[h] == 0
  }

  /** Input that repeats itself soon enough, in windows that the hash function tells apart. */
  ghost predicate Regular(input: seq<byte>, period: nat, hash: seq<byte> -> nat) {
    Periodic(input, period) && Apart(input, period, hash) && period + 16 <= |input|
  }

  lemma FirstScan(input: seq<byte>, period: nat, was: seq<uint16>, hash: seq<byte> -> nat, k: nat, found: bool,
                  candidate: nat)
    requires Regular(input, period, hash) && Misses(input, 1, was, hash, k)
    requires forall h :: 0 <= h < |was| ==> was[h] == 0
    requires found ==> candidate == Candidate(input, 1, was, hash, k) && Same(input, candidate, 1 + Step(k), 4)
    requires !found ==> 1 + Step(k + 1) + INPUT_MARGIN > |input|
    ensures found && 1 + Step(k) == period <= MAX_PERIOD && candidate == 0
    ensures Same(input, 0, period, |input| - period)
  {
    PeriodIsFound(input, period, was, hash, k, found);
    PeriodRepeats(input, period);
  }

  /** One turn of the main loop: a scan, the literal before the match it finds, and the copies from there. */
  method Round(op: array<byte>, start: nat, at: nat, input: seq<byte>, pending: nat, ip: nat, table: array<uint16>,
               hash: seq<byte> -> nat, wide: bool, ghost period: nat)
    returns (end: nat, nextEmit: nat, done: bool)
    requires INPUT_MARGIN <= |input| <= BLOCK_SIZE && start + Room(|input|) <= op.Length
    requires op as object != table as object && IntoTable(hash, table)
    requires pending < ip && ip + INPUT_MARGIN <= |input| + 1 && TableBelow(table, ip)
    requires Emitted(op, start, at, input, pending) && Tight(start, at, pending)
    modifies op, table
    ensures nextEmit <= |input| && Emitted(op, start, end, input, nextEmit) && Tight(start, end, nextEmit)
    ensures !done ==> ip <= nextEmit && nextEmit + INPUT_MARGIN < |input| && TableBelow(table, nextEmit + 1)
    ensures pending == 0 && ip == 1 && old(Zero(table)) && Regular(input, period, hash) ==>
      done && nextEmit == |input| && end <= at + 1 + period + 3 * Pieces(|input| - period)
    ensures forall i :: 0 <= i < start ==> op[i] == old(op[i])
  {
    hide Described, Room, Tight, TightBeforeCopy, Hit, Candidate, Pieces, Misses, Regular;
    ghost var was := table[..];
    var found, base: nat, candidate: nat, k := Scan(input, ip, hash(input[ip..ip + 4]), table, hash);
    if ip == 1 && Regular(input, period, hash) && (forall h :: 0 <= h < |was| ==> was[h] == 0) {
      FirstScan(input, period, was, hash, k, found, candidate);
    }
    if !found {
      return at, pending, true;
    }
    assert pending + 16 <= |input|;
    end := EmitPending(op, start, at, input, pending, base, true);
    end, nextEmit, done := EmitMatches(op, start, end, input, candidate, base, table, hash, wide);
  }

  /** CompressFragment. What it emits decodes to the input, whatever the hash function, and with every store it
      makes fits in less than MaxCompressedLength. */
  method CompressFragment(input: seq<byte>, op: array<byte>, start: nat, table: array<uint16>, hash: seq<byte> -> nat,
                          wide: bool, ghost period: nat) returns (end: nat)
    requires |input| <= BLOCK_SIZE && start + Room(|input|) <= op.Length
    requires op as object != table as object && IntoTable(hash, table)
    requires Zero(table)
    modifies op, table
    ensures start <= end <= start + Room(|input|) && Described(op[start..end], [], |input|) == Some(input)
    ensures Regular(input, period, hash) ==> end <= start + 1 + period + 3 * Pieces(|input| - period)
    ensures forall i :: 0 <= i < start ==> op[i] == old(op[i])
  {
    hide Described, Emitted, Tight, TableBelow, Room, Pieces, Zero, Regular;
    NothingEmitted(op, start, input);
    ZeroTable(table);
    var nextEmit: nat := 0;
    end := start;
    RegularIsLong(input, period, hash);
    if |input| >= INPUT_MARGIN {
      var ip: nat, done := 1, false;
      while !done
        invariant nextEmit <= |input| && Emitted(op, start, end, input, nextEmit) && Tight(start, end, nextEmit)
        invariant Regular(input, period, hash) ==>
          if done then nextEmit == |input| && end <= start + 1 + period + 3 * Pieces(|input| - period)
          else nextEmit == 0 && ip == 1 && end == start && Zero(table)
        invariant !done ==> nextEmit < ip && ip + INPUT_MARGIN <= |input| + 1 && TableBelow(table, ip)
        invariant forall i :: 0 <= i < start ==> op[i] == old(op[i])
        decreases !done, |input| - ip
      {
        end, nextEmit, done := Round(op, start, end, input, nextEmit, ip, table, hash, wide, period);
        ip := nextEmit + 1;
      }
    }
    end := EmitRest(op, start, end, input, nextEmit);
  }

  /** Whatever input is left becomes the last literal. */
  method EmitRest(op: array<byte>, start: nat, at: nat, input: seq<byte>, p: nat) returns (end: nat)
    requires Emitted(op, start, at, input, p) && Tight(start, at, p)
    requires |input| <= BLOCK_SIZE && start + Room(|input|) <= op.Length
    modifies op
    ensures start <= end <= start + Room(|input|) && Described(op[start..end], [], |input|) == Some(input)
    ensures p == |input| ==> end == at
    ensures forall i :: 0 <= i < start ==> op[i] == old(op[i])
  {
    hide Described;
    end := at;
    if p < |input| {
      end := EmitPending(op, start, at, input, p, |input|, false);
    }
    assert input[..|input|] == input;
  }

  lemma ZeroTable(table: array<uint16>)
    requires Zero(table)
    ensures TableBelow(table, 1)
  {
  }

  lemma RegularIsLong(input: seq<byte>, period: nat, hash: seq<byte> -> nat)
    ensures Regular(input, period, hash) ==> |input| >= INPUT_MARGIN && period <= |input|
  {
  }

  lemma NothingEmitted(op: array<byte>, start: nat, input: seq<byte>)
    requires start <= op.Length
    ensures Emitted(op, start, start, input, 0) && Tight(start, start, 0)
  {
    assert op[start..start] == [] && input[..0] == [];
  }
}
