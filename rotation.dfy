/** The rotation queue of `Scheduler.generateCalendar`: `refillQueue` lays
    every group of the roster out twice in a row, and the generator shifts one
    group off the head per normal school day, refilling when it runs dry. */
module Rotation {
  import opened Arith

  /** One full pass of the queue, `[g1, g1, g2, g2, ..., gN, gN]`. */
  function Doubled<G>(groups: seq<G>): seq<G> {
    seq(2 * |groups|, j requires 0 <= j < 2 * |groups| => groups[j / 2])
  }

  lemma DoubledCons<G>(groups: seq<G>)
    requires groups != []
    ensures Doubled(groups) == [groups[0], groups[0]] + Doubled(groups[1..])
  {
    var d, t := Doubled(groups), Doubled(groups[1..]);
    assert forall j :: 2 <= j < |d| ==> d[j] == t[j - 2] by {
      forall j | 2 <= j < |d| ensures d[j] == t[j - 2] {
        assert (j - 2) / 2 == j / 2 - 1;
      }
    }
  }

  /** Every group occurs exactly twice in one pass, and nothing else does. */
  lemma {:induction false} DoubledMultiset<G>(groups: seq<G>)
    ensures multiset(Doubled(groups)) == multiset(groups) + multiset(groups)
    decreases |groups|
  {
    if groups != [] {
      DoubledCons(groups);
      DoubledMultiset(groups[1..]);
      assert groups == [groups[0]] + groups[1..];
    }
  }

  /** `refillQueue`: pushes every group twice, in roster order. */
  method RefillQueue<G>(groups: seq<G>) returns (batch: seq<G>)
    ensures |batch| == 2 * |groups|
    ensures forall k :: 0 <= k < |groups| ==> batch[2 * k] == groups[k] && batch[2 * k + 1] == groups[k]
    ensures batch == Doubled(groups)
  {
    batch := [];
    for i := 0 to |groups|
      invariant |batch| == 2 * i
      invariant forall j :: 0 <= j < 2 * i ==> batch[j] == groups[j / 2]
    {
      batch := batch + [groups[i]];
      batch := batch + [groups[i]];
    }
  }

  /** Position `i` of the endless repetition, folded into one pass of length
      `len`: `i mod len`, counted out pass by pass. */
  function Slot(i: nat, len: nat): (r: nat)
    requires len > 0
    ensures r < len
    decreases i
  {
    if i < len then i else Slot(i - len, len)
  }

  /** The slot after slot `r` of one pass, wrapping round at its end. */
  function NextSlot(r: nat, len: nat): nat {
    if r + 1 == len then 0 else r + 1
  }

  /** Moving one position along the repetition moves one slot along the pass. */
  lemma {:induction false} SlotStep(i: nat, len: nat)
    requires len > 0
    ensures Slot(i + 1, len) == NextSlot(Slot(i, len), len)
    decreases i
  {
    if i >= len {
      SlotStep(i - len, len);
      assert i + 1 - len == (i - len) + 1;
    }
  }

  /** Whole passes do not move the slot. */
  lemma {:induction false} SlotAddPasses(j: nat, q: nat, len: nat)
    requires j < len
    ensures Slot(j + q * len, len) == j
    decreases q
  {
    if q > 0 {
      SlotAddPasses(j, q - 1, len);
      assert j + q * len - len == j + (q - 1) * len;
    }
  }

  /** `Slot` is the remainder of `i` divided by `len`. */
  lemma {:induction false} SlotIsMod(i: nat, len: nat)
    requires len > 0
    ensures Slot(i, len) == i % len
    decreases i
  {
    if i < len {
      DivModUnique(i, len, 0, i);
    } else {
      SlotIsMod(i - len, len);
      DivModUnique(i, len, (i - len) / len + 1, (i - len) % len);
    }
  }

  /** The group in slot `i` of the endless repetition of `Doubled(groups)`. */
  function Cycle<G>(groups: seq<G>, i: nat): G
    requires |groups| > 0
  {
    Doubled(groups)[Slot(i, 2 * |groups|)]
  }

  /** Position `i` of the repetition holds roster entry `(i mod 2N) / 2`. */
  lemma CycleGroup<G>(groups: seq<G>, i: nat)
    requires |groups| > 0
    ensures Cycle(groups, i) == groups[(i % (2 * |groups|)) / 2]
  {
    SlotIsMod(i, 2 * |groups|);
  }

  /** The first `k` slots of the endless repetition. */
  function RepeatedPrefix<G>(groups: seq<G>, k: nat): (r: seq<G>)
    requires |groups| > 0
  {
    seq(k, i requires 0 <= i < k => Cycle(groups, i))
  }

  /** One more slot of the repetition extends its prefix by `Cycle(groups, k)`. */
  lemma RepeatedPrefixStep<G>(groups: seq<G>, k: nat)
    requires |groups| > 0
    ensures RepeatedPrefix(groups, k + 1) == RepeatedPrefix(groups, k) + [Cycle(groups, k)]
  {
    assert RepeatedPrefix(groups, k + 1)[..k] == RepeatedPrefix(groups, k);
  }

  /** `m` passes of the queue, back to back. */
  function Passes<G>(groups: seq<G>, m: nat): seq<G> {
    if m == 0 then [] else Passes(groups, m - 1) + Doubled(groups)
  }

  /** `RepeatedPrefix` is a prefix of enough whole passes of `refillQueue()`. */
  lemma {:induction false} RepeatedPrefixOfPasses<G>(groups: seq<G>, m: nat)
    requires |groups| > 0
    ensures |Passes(groups, m)| == m * (2 * |groups|)
    ensures RepeatedPrefix(groups, m * (2 * |groups|)) == Passes(groups, m)
  {
    var len := 2 * |groups|;
    if m > 0 {
      RepeatedPrefixOfPasses(groups, m - 1);
      var p, r := Passes(groups, m), RepeatedPrefix(groups, m * len);
      assert |p| == m * len;
      forall i | 0 <= i < m * len ensures r[i] == p[i] {
        if i >= (m - 1) * len {
          var j := i - (m - 1) * len;
          assert 0 <= j < len;
          SlotAddPasses(j, m - 1, len);
        }
      }
    }
  }

  /** The queue as the generator shifts from it: refilled with a fresh pass
      when it has run dry. */
  function Refilled<G>(groups: seq<G>, queue: seq<G>): seq<G> {
    if queue == [] then Doubled(groups) else queue
  }

  /** The queue after `c` normal school days: it starts as `refillQueue()`, and
      each such day refills it if it is empty and shifts one group off. */
  function QueueAfter<G>(groups: seq<G>, c: nat): seq<G>
    requires |groups| > 0
    decreases c
  {
    if c == 0 then Doubled(groups) else Refilled(groups, QueueAfter(groups, c - 1))[1..]
  }

  /** With the queue holding the slots of a pass after slot `r`, the group
      shifted next is slot `NextSlot(r)`, and what remains is the tail after it. */
  lemma ShiftAfterSlot<G>(groups: seq<G>, r: nat)
    requires r < 2 * |groups|
    ensures Refilled(groups, Doubled(groups)[r + 1..]) != []
    ensures Refilled(groups, Doubled(groups)[r + 1..])[0] == Doubled(groups)[NextSlot(r, 2 * |groups|)]
    ensures Refilled(groups, Doubled(groups)[r + 1..])[1..] == Doubled(groups)[NextSlot(r, 2 * |groups|) + 1..]
  {
    var d := Doubled(groups);
    if r + 1 == 2 * |groups| {
      assert d[r + 1..] == [];
    } else {
      assert d[r + 1..] != [];
      assert d[r + 1..][1..] == d[r + 2..];
    }
  }

  /** If the queue after `c >= 1` shifts is the tail of a pass after slot
      `Slot(c - 1)`, the queue after one more shift is the tail after `Slot(c)`. */
  lemma QueueAfterNext<G>(groups: seq<G>, c: nat)
    requires |groups| > 0 && c >= 1
    requires QueueAfter(groups, c) == Doubled(groups)[Slot(c - 1, 2 * |groups|) + 1..]
    ensures QueueAfter(groups, c + 1) == Doubled(groups)[Slot(c, 2 * |groups|) + 1..]
  {
    var r := Slot(c - 1, 2 * |groups|);
    SlotStep(c - 1, 2 * |groups|);
    ShiftAfterSlot(groups, r);
  }

  /** Closed form of the queue: after `c > 0` shifts it is the tail of the
      current pass that follows slot `(c - 1) mod 2N` (empty at the end of a pass). */
  lemma {:induction false} QueueAfterClosedForm<G>(groups: seq<G>, c: nat)
    requires |groups| > 0
    ensures QueueAfter(groups, c)
      == if c == 0 then Doubled(groups) else Doubled(groups)[Slot(c - 1, 2 * |groups|) + 1..]
    decreases c
  {
    if c == 1 {
      assert Doubled(groups)[1..] == Doubled(groups)[Slot(0, 2 * |groups|) + 1..];
    } else if c > 1 {
      QueueAfterClosedForm(groups, c - 1);
      QueueAfterNext(groups, c - 1);
    }
  }

  /** One normal school day takes slot `c` of the endless repetition of
      `refillQueue()`: the queue it shifts from is never empty and its head is `Cycle(groups, c)`. */
  lemma QueueStep<G>(groups: seq<G>, c: nat)
    requires |groups| > 0
    ensures Refilled(groups, QueueAfter(groups, c)) != []
    ensures Refilled(groups, QueueAfter(groups, c))[0] == Cycle(groups, c)
    ensures QueueAfter(groups, c + 1) == Refilled(groups, QueueAfter(groups, c))[1..]
  {
    var len := 2 * |groups|;
    QueueAfterClosedForm(groups, c);
    if c > 0 {
      SlotStep(c - 1, len);
      ShiftAfterSlot(groups, Slot(c - 1, len));
    }
  }

  /** The generator's use of the queue on a normal school day: refill it with
      `refillQueue()` if it is empty, then shift the head off. After `c` such
      days the group shifted off is slot `c` of the endless repetition. */
  method TakeGroup<G>(groups: seq<G>, queue: seq<G>, ghost c: nat) returns (group: G, rest: seq<G>)
    requires |groups| > 0
    requires queue == QueueAfter(groups, c)
    ensures group == Refilled(groups, queue)[0] && rest == Refilled(groups, queue)[1..]
    ensures group == Cycle(groups, c)
    ensures rest == QueueAfter(groups, c + 1)
  {
    QueueStep(groups, c);
    rest := queue;
    if |rest| == 0 {
      rest := RefillQueue(groups);
    }
    group := rest[0];
    rest := rest[1..];
  }
}
