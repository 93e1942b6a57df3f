/** Where a scan for matches looks, what its hash table holds as it goes, and what it must therefore find. */
module Search {
  import opened Bytes
  import opened FindMatch

  type uint16 = x: int | 0 <= x < 65536

  /** How far past its start a scan makes its probe `k`: byte by byte for 32 bytes, every other byte for 32 more,
      and so on. */
  function Step(k: nat): nat {
    if k == 0 then 0 else Step(k - 1) + 1 + Step(k - 1) / 32
  }

  /** The four bytes at `i`. */
  function Window(input: seq<byte>, i: nat): seq<byte> {
    if i + 4 <= |input| then input[i..i + 4] else []
  }

  /** Slot `h` once `k` probes have been entered in `table`: the last of them with that hash. */
  function Slot(input: seq<byte>, ip: nat, table: seq<uint16>, hash: seq<byte> -> nat, k: nat, h: nat): nat {
    if k == 0 then (if h < |table| then table[h] else 0)
    else if hash(Window(input, ip + Step(k - 1))) == h then ip + Step(k - 1)
    else Slot(input, ip, table, hash, k - 1, h)
  }

  /** The earlier position that probe `k` compares with its own. */
  function Candidate(input: seq<byte>, ip: nat, table: seq<uint16>, hash: seq<byte> -> nat, k: nat): nat {
    Slot(input, ip, table, hash, k, hash(Window(input, ip + Step(k))))
  }

  predicate Hit(input: seq<byte>, ip: nat, table: seq<uint16>, hash: seq<byte> -> nat, k: nat) {
    Same(input, Candidate(input, ip, table, hash, k), ip + Step(k), 4)
  }

  /** The first `k` probes are misses. */
  ghost predicate Misses(input: seq<byte>, ip: nat, table: seq<uint16>, hash: seq<byte> -> nat, k: nat) {
    forall j: nat :: j < k ==> !Hit(input, ip, table, hash, j)
  }

  // ---------------------------------------------------------------- regular input

  /** The longest period that a first scan is sure to see, byte by byte. */
  const MAX_PERIOD: nat := 32

  /** The input repeats itself every `p` bytes. */
  ghost predicate Periodic(input: seq<byte>, p: nat) {
    1 <= p <= MAX_PERIOD && forall i :: p <= i < |input| ==> input[i] == input[i - p]
  }

  /** The hash function tells the windows of one period apart. */
  ghost predicate Apart(input: seq<byte>, p: nat, hash: seq<byte> -> nat) {
    forall i: nat, j: nat :: i < j < i + p && j + 4 <= |input| ==> hash(Window(input, i)) != hash(Window(input, j))
  }

  lemma {:induction false} ByteByByte(k: nat)
    requires k <= MAX_PERIOD
    ensures Step(k) == k
  {
    if k > 0 {
      ByteByByte(k - 1);
    }
  }

  lemma {:induction false} NotEntered(input: seq<byte>, p: nat, table: seq<uint16>, hash: seq<byte> -> nat, k: nat,
                                      at: nat)
    requires p <= MAX_PERIOD && k < at <= p && at + 4 <= |input| && Apart(input, p, hash)
    requires forall h :: 0 <= h < |table| ==> table[h] == 0
    ensures Slot(input, 1, table, hash, k, hash(Window(input, at))) == 0
  {
    if k > 0 {
      ByteByByte(k - 1);
      assert hash(Window(input, k)) != hash(Window(input, at));
      NotEntered(input, p, table, hash, k - 1, at);
    }
  }

  /** From `p` on, periodic input goes on as it began. */
  lemma PeriodRepeats(input: seq<byte>, p: nat)
    requires Periodic(input, p) && p <= |input|
    ensures Same(input, 0, p, |input| - p)
  {
    assert forall i :: 0 <= i < |input| - p ==> input[p..][i] == input[i];
    assert input[p..p + (|input| - p)] == input[0..|input| - p];
  }

  lemma EarlyMiss(input: seq<byte>, p: nat, table: seq<uint16>, hash: seq<byte> -> nat, k: nat)
    requires Periodic(input, p) && Apart(input, p, hash) && p + 4 <= |input| && k + 1 < p
    requires forall h :: 0 <= h < |table| ==> table[h] == 0
    ensures !Hit(input, 1, table, hash, k)
  {
    ByteByByte(k);
    NotEntered(input, p, table, hash, k, k + 1);
    assert hash(Window(input, 0)) != hash(Window(input, k + 1));
  }

  lemma PeriodHits(input: seq<byte>, p: nat, table: seq<uint16>, hash: seq<byte> -> nat)
    requires Periodic(input, p) && Apart(input, p, hash) && p + 4 <= |input|
    requires forall h :: 0 <= h < |table| ==> table[h] == 0
    ensures Step(p - 1) == p - 1 && Candidate(input, 1, table, hash, p - 1) == 0 && Hit(input, 1, table, hash, p - 1)
  {
    ByteByByte(p - 1);
    NotEntered(input, p, table, hash, p - 1, p);
    PeriodRepeats(input, p);
    assert input[0..4] == input[0..|input| - p][..4] && input[p..p + 4] == input[p..p + (|input| - p)][..4];
  }

  /** The first scan of periodic input ends at probe `p - 1`, one period in, with the start of the input to copy. */
  lemma PeriodIsFound(input: seq<byte>, p: nat, table: seq<uint16>, hash: seq<byte> -> nat, k: nat, found: bool)
    requires Periodic(input, p) && Apart(input, p, hash) && p + 16 <= |input|
    requires forall h :: 0 <= h < |table| ==> table[h] == 0
    requires Misses(input, 1, table, hash, k)
    requires if found then Hit(input, 1, table, hash, k) else 1 + Step(k + 1) + 15 > |input|
    ensures found && 1 + Step(k) == p && Candidate(input, 1, table, hash, k) == 0
  {
    hide *;
    PeriodRange(input, p);
    PeriodHits(input, p, table, hash);
    ByteByByte(p);
    if k < p - 1 {
      EarlyMiss(input, p, table, hash, k);
      ByteByByte(k + 1);
    } else if k > p - 1 {
      MissAt(input, table, hash, k, p - 1);
    }
  }

  lemma PeriodRange(input: seq<byte>, p: nat)
    requires Periodic(input, p)
    ensures 1 <= p <= MAX_PERIOD
  {
  }

  lemma MissAt(input: seq<byte>, table: seq<uint16>, hash: seq<byte> -> nat, k: nat, j: nat)
    requires Misses(input, 1, table, hash, k) && j < k
    ensures !Hit(input, 1, table, hash, j)
  {
  }

  /** A run of one byte has period 1, and no hash function has anything to tell apart in it. */
  lemma RunIsPeriodic(input: seq<byte>, b: byte, hash: seq<byte> -> nat)
    requires forall i :: 0 <= i < |input| ==> input[i] == b
    ensures Periodic(input, 1) && Apart(input, 1, hash)
  {
  }
}
