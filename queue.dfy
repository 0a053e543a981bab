/** The fixed-depth tagged FIFO queue of the QSC library (queue.c).

    A queue holds `depth` slots of `width` bytes each and one 64-bit tag per
    slot. Items occupy slots 0 .. position-1 in arrival order; `count` and
    `position` always hold the same number. Every slot at or above `position`
    is all zero bytes, so a short item is stored zero-padded to the slot width.
    The ghost field Contents is the abstract value: the bytes of the live slots,
    oldest first. */
module Queue {
  import opened MemUtils

  /** The bytes of every item, laid end to end (the output of a flush). */
  function Flatten(items: seq<seq<bv8>>): seq<bv8>
  {
    if items == [] then [] else Flatten(items[..|items| - 1]) + items[|items| - 1]
  }

  /** Every item is exactly w bytes long. */
  predicate AllWidth(items: seq<seq<bv8>>, w: nat)
  {
    forall i :: 0 <= i < |items| ==> |items[i]| == w
  }

  /** Items of equal width w flatten to |items| * w bytes. */
  lemma {:induction false} FlattenLength(items: seq<seq<bv8>>, w: nat)
    requires AllWidth(items, w)
    ensures |Flatten(items)| == |items| * w
  {
    if items != [] {
      var n := |items| - 1;
      assert AllWidth(items[..n], w);
      FlattenLength(items[..n], w);
      assert |Flatten(items)| == n * w + w;
    }
  }

  /** Item i of equal-width items is the i-th w-byte block of the flattening. */
  lemma {:induction false} FlattenBlock(items: seq<seq<bv8>>, w: nat, i: nat)
    requires AllWidth(items, w) && i < |items|
    ensures |Flatten(items)| == |items| * w
    ensures (i + 1) * w <= |Flatten(items)|
    ensures Flatten(items)[i * w .. (i + 1) * w] == items[i]
  {
    FlattenLength(items, w);
    var n := |items| - 1;
    var front := items[..n];
    FlattenLength(front, w);
    assert (i + 1) * w <= (n + 1) * w by { MulMonotone(i + 1, n + 1, w); }
    if i < n {
      FlattenBlock(front, w, i);
      assert (i + 1) * w <= n * w by { MulMonotone(i + 1, n, w); }
      assert Flatten(items) == Flatten(front) + items[n];
    } else {
      assert Flatten(items)[n * w ..] == items[n];
      assert (n + 1) * w == n * w + w;
    }
  }

  /** t is t0 with its first p elements moved down by one and fill written at p-1. */
  lemma ShiftedDown<T>(t0: seq<T>, t: seq<T>, p: nat, fill: T)
    requires |t| == |t0| && 1 <= p <= |t0|
    requires forall j :: 0 <= j < p - 1 ==> t[j] == t0[j + 1]
    requires t[p - 1] == fill
    requires forall j :: p <= j < |t| ==> t[j] == t0[j]
    ensures t == t0[1..p] + [fill] + t0[p..]
  {
  }

  lemma MulMonotone(a: nat, b: nat, c: nat)
    requires a <= b
    ensures a * c <= b * c
  {
  }

  /** The slot buffers are pairwise distinct objects. */
  predicate Distinct(slots: seq<array<bv8>>)
  {
    forall i, j :: 0 <= i < j < |slots| ==> slots[i] != slots[j]
  }

  /** Lines 118 and 121-131 of qsc_queue_pop on the first n slots: slot 0 is
      wiped, then for i in 1 .. n-1 slot i is copied over slot i-1 and tag i
      over tag i-1, and finally slot n-1 is wiped and tag n-1 zeroed. So every
      live item and its tag move down one place, the freed last slot is zero,
      and no slot at or above n is touched. */
  method ShiftSlots(slots: seq<array<bv8>>, tags: array<bv64>, n: nat, w: nat, ghost c: seq<seq<bv8>>)
    requires 1 <= n <= |slots| && n <= tags.Length && |c| == n && Distinct(slots)
    requires forall j :: 0 <= j < |slots| ==> slots[j].Length == w
    requires forall j :: 0 <= j < n ==> |c[j]| == w
    requires forall j, k :: 0 <= j < n && 0 <= k < w ==> slots[j][k] == c[j][k]
    modifies tags, set j | 0 <= j < n :: slots[j]
    ensures forall j, k :: 0 <= j < n - 1 && 0 <= k < w ==> slots[j][k] == c[j + 1][k]
    ensures forall j, k :: n - 1 <= j < n && 0 <= k < w ==> slots[j][k] == 0
    ensures forall j, k :: n <= j < |slots| && 0 <= k < w ==> slots[j][k] == old(slots[j][k])
    ensures tags[..] == old(tags[1..n]) + [0] + old(tags[n..])
  {
    ghost var t0 := tags[..];
    Fill(slots[0], 0);
    var i := 1;
    while i < n
      invariant 1 <= i <= n
      invariant forall j, k :: 0 <= j < i - 1 && 0 <= k < w ==> slots[j][k] == c[j + 1][k]
      invariant forall j, k :: i <= j < n && 0 <= k < w ==> slots[j][k] == c[j][k]
      invariant forall j :: 0 <= j < i - 1 ==> tags[j] == t0[j + 1]
      invariant forall j :: i - 1 <= j < tags.Length ==> tags[j] == t0[j]
    {
      Copy(slots[i - 1], 0, slots[i][..]);
      tags[i - 1] := tags[i];
      i := i + 1;
    }
    Fill(slots[n - 1], 0);
    tags[n - 1] := 0;
    ShiftedDown(t0, tags[..], n, 0);
  }

  /** The loop of qsc_queue_flush (lines 39-46): each of the first n slots is
      copied, whole width, to output[i*w .. (i+1)*w) and then wiped. */
  method FlushSlots(slots: seq<array<bv8>>, n: nat, w: nat, output: array<bv8>, ghost c: seq<seq<bv8>>)
    requires n <= |slots| && |c| == n && n * w <= output.Length && Distinct(slots)
    requires forall j :: 0 <= j < |slots| ==> slots[j].Length == w && slots[j] != output
    requires forall j :: 0 <= j < n ==> |c[j]| == w
    requires forall j, k :: 0 <= j < n && 0 <= k < w ==> slots[j][k] == c[j][k]
    modifies output, set j | 0 <= j < n :: slots[j]
    ensures output[..] == Flatten(c) + old(output[n * w..])
    ensures forall j, k :: 0 <= j < n && 0 <= k < w ==> slots[j][k] == 0
  {
    var i := 0;
    while i < n
      invariant 0 <= i <= n
      invariant i * w <= output.Length
      invariant output[..i * w] == Flatten(c[..i])
      invariant forall k :: i * w <= k < output.Length ==> output[k] == old(output[k])
      invariant forall j, k :: 0 <= j < i && 0 <= k < w ==> slots[j][k] == 0
      invariant forall j, k :: i <= j < n && 0 <= k < w ==> slots[j][k] == c[j][k]
    {
      assert (i + 1) * w <= n * w by { MulMonotone(i + 1, n, w); }
      ghost var before := output[..];
      Copy(output, i * w, slots[i][..]);
      assert output[..(i + 1) * w] == before[..i * w] + c[i];
      assert c[..i + 1][..i] == c[..i];
      Fill(slots[i], 0);
      i := i + 1;
    }
    assert c[..n] == c;
    assert output[..] == output[..n * w] + output[n * w..];
  }

  /** The loop of qsc_queue_destroy (lines 11-18): every slot is wiped. */
  method WipeSlots(slots: seq<array<bv8>>)
    requires Distinct(slots)
    modifies set j | 0 <= j < |slots| :: slots[j]
    ensures forall j, k :: 0 <= j < |slots| && 0 <= k < slots[j].Length ==> slots[j][k] == 0
  {
    var i := 0;
    while i < |slots|
      invariant 0 <= i <= |slots|
      invariant forall j, k :: 0 <= j < i && 0 <= k < slots[j].Length ==> slots[j][k] == 0
    {
      Fill(slots[i], 0);
      i := i + 1;
    }
  }

  class QueueState {
    /** The slots, each a separately allocated buffer of `width` bytes. */
    var queue: array<array<bv8>>
    /** One tag per slot; only tags below `position` carry item tags. */
    var tags: array<bv64>
    var count: nat
    var depth: nat
    var position: nat
    var width: nat

    /** The live items, oldest first: slot i's bytes for i < count. */
    ghost var Contents: seq<seq<bv8>>
    ghost var Repr: set<object>

    /** The layout of the buffers: one distinct slot array of `width` bytes
        per slot, and at least `depth` tags. It depends on no slot's bytes. */
    ghost predicate Layout()
      reads this, queue
    {
      && tags as object != queue
      && queue.Length == depth && depth <= tags.Length
      && (forall i :: 0 <= i < depth ==> queue[i].Length == width && queue[i] as object != queue)
      && (forall i, j :: 0 <= i < j < depth ==> queue[i] != queue[j])
    }

    ghost predicate Valid()
      reads this, Repr
    {
      && this in Repr && queue in Repr && tags in Repr
      && (forall i :: 0 <= i < queue.Length ==> queue[i] in Repr)
      && Layout()
      && count == position && count <= depth
      && |Contents| == count
      && (forall i :: 0 <= i < count ==> |Contents[i]| == width)
      && (forall i, k :: 0 <= i < count && 0 <= k < width ==> queue[i][k] == Contents[i][k])
      && (forall i, k :: count <= i < depth && 0 <= k < width ==> queue[i][k] == 0)
    }

    /** qsc_queue_initialize: allocates `depth` zeroed slots of `width` bytes,
        clears the tags and starts both counters at 0. */
    constructor (depth: nat, width: nat)
      requires depth != 0 && width != 0
      ensures Valid() && fresh(Repr)
      ensures this.depth == depth && this.width == width
      ensures Contents == [] && count == 0 && position == 0
      ensures tags.Length == depth && tags[..] == Repeat(0, depth)
    {
      var none := new bv8[0];
      var q := new array<bv8>[depth](_ => none);
      var i := 0;
      while i < depth
        invariant 0 <= i <= depth
        invariant forall j :: 0 <= j < i ==> fresh(q[j]) && q[j] as object != q && q[j].Length == width
        invariant forall j, k :: 0 <= j < i && 0 <= k < width ==> q[j][k] == 0
        invariant forall j, l :: 0 <= j < l < i ==> q[j] != q[l]
      {
        var slot := new bv8[width];
        Fill(slot, 0);
        q[i] := slot;
        i := i + 1;
      }
      var t := new bv64[depth];
      Fill(t, 0);
      queue := q;
      tags := t;
      count := 0;
      this.depth := depth;
      position := 0;
      this.width := width;
      Contents := [];
      Repr := {this, q, t} + set j | 0 <= j < depth :: q[j];
    }

    /** qsc_queue_items: the number of items held. */
    function Items(): (n: nat)
      reads this, Repr
      requires Valid()
      ensures n == |Contents|
    {
      count
    }

    /** qsc_queue_isfull: every slot is taken. */
    function IsFull(): (full: bool)
      reads this, Repr
      requires Valid()
      ensures full <==> |Contents| == depth
    {
      count == depth
    }

    /** qsc_queue_isempty: no item is held. */
    function IsEmpty(): (empty: bool)
      reads this, Repr
      requires Valid()
      ensures empty <==> Contents == []
    {
      count == 0
    }

    /** qsc_queue_push: stores the first inlen bytes of input and its tag in the
        next free slot. When the queue is full or inlen exceeds the slot width
        nothing changes. */
    method Push(input: seq<bv8>, inlen: nat, tag: bv64)
      requires Valid()
      requires 0 < inlen <= |input|
      modifies Repr
      ensures Valid() && Repr == old(Repr)
      ensures queue == old(queue) && tags == old(tags) && depth == old(depth) && width == old(width)
      ensures old(count) < depth && inlen <= width ==>
        && count == old(count) + 1
        && Contents == old(Contents) + [input[..inlen] + Zeros(width - inlen)]
        && tags[..] == old(tags[..][position := tag])
      ensures !(old(count) < depth && inlen <= width) ==>
        && count == old(count)
        && Contents == old(Contents)
        && tags[..] == old(tags[..])
    {
      if !IsFull() && inlen <= width {
        Copy(queue[position], 0, input[..inlen]);
        tags[position] := tag;
        position := position + 1;
        count := count + 1;
        Contents := Contents + [input[..inlen] + Zeros(width - inlen)];
      }
    }

    /** Lines 118 and 121-133 of qsc_queue_pop: moves every later live slot and
        tag down by one, wipes the vacated last slot, zeroes its tag and
        decrements both counters. */
    method ShiftDown()
      requires Valid() && count != 0
      modifies Repr
      ensures Valid() && Repr == old(Repr)
      ensures queue == old(queue) && tags == old(tags) && depth == old(depth) && width == old(width)
      ensures count == old(count) - 1
      ensures Contents == old(Contents[1..])
      ensures tags[..] == old(tags[1..position]) + [0] + old(tags[position..])
    {
      var slots := queue[..];
      assert Distinct(slots);
      ShiftSlots(slots, tags, count, width, Contents);
      count := count - 1;
      position := position - 1;
      Contents := Contents[1..];
    }

    /** qsc_queue_pop: copies the first outlen bytes of the oldest item to
        output and removes it. The value returned is the tag stored at
        position-1 before the shift, which is the tag of the NEWEST item.
        When the queue is empty or outlen exceeds the slot width nothing
        changes and 0 is returned. */
    method Pop(output: array<bv8>, outlen: nat) returns (tag: bv64)
      requires Valid()
      requires 0 < outlen <= output.Length && output !in Repr
      modifies Repr, output
      ensures Valid() && Repr == old(Repr)
      ensures queue == old(queue) && tags == old(tags) && depth == old(depth) && width == old(width)
      ensures old(count) != 0 && outlen <= width ==>
        && tag == old(tags[position - 1])
        && count == old(count) - 1
        && Contents == old(Contents[1..])
        && output[..] == old(Contents[0][..outlen]) + old(output[outlen..])
        && tags[..] == old(tags[1..position]) + [0] + old(tags[position..])
      ensures !(old(count) != 0 && outlen <= width) ==>
        && tag == 0
        && count == old(count)
        && Contents == old(Contents)
        && output[..] == old(output[..])
        && tags[..] == old(tags[..])
    {
      tag := 0;
      if !IsEmpty() && outlen <= width {
        TakeOldest(output, outlen);
        tag := tags[position - 1];
        ShiftDown();
      }
    }

    /** Pop as evidently intended: the same removal as Pop, returning the tag
        that was pushed with the removed (oldest) item. */
    method PopFifo(output: array<bv8>, outlen: nat) returns (tag: bv64)
      requires Valid()
      requires 0 < outlen <= output.Length && output !in Repr
      modifies Repr, output
      ensures Valid() && Repr == old(Repr)
      ensures queue == old(queue) && tags == old(tags) && depth == old(depth) && width == old(width)
      ensures old(count) != 0 && outlen <= width ==>
        && tag == old(tags[0])
        && count == old(count) - 1
        && Contents == old(Contents[1..])
        && output[..] == old(Contents[0][..outlen]) + old(output[outlen..])
        && tags[..] == old(tags[1..position]) + [0] + old(tags[position..])
      ensures !(old(count) != 0 && outlen <= width) ==>
        && tag == 0
        && count == old(count)
        && Contents == old(Contents)
        && output[..] == old(output[..])
        && tags[..] == old(tags[..])
    {
      tag := 0;
      if !IsEmpty() && outlen <= width {
        TakeOldest(output, outlen);
        tag := tags[0];
        ShiftDown();
      }
    }

    /** Line 117 of qsc_queue_pop: the first outlen bytes of the oldest item
        are copied to output. */
    method TakeOldest(output: array<bv8>, outlen: nat)
      requires Valid() && count != 0
      requires outlen <= width && outlen <= output.Length && output !in Repr
      modifies output
      ensures output[..] == Contents[0][..outlen] + old(output[outlen..])
    {
      Copy(output, 0, queue[0][..outlen]);
      assert output[..] == Contents[0][..outlen] + old(output[outlen..]);
    }

    /** qsc_queue_flush: copies every live slot, whole width, to consecutive
        blocks of output, wipes those slots, and resets the counters and all
        tags to 0. */
    method Flush(output: array<bv8>)
      requires Valid()
      requires position * width <= output.Length && output !in Repr
      modifies Repr, output
      ensures Valid() && Repr == old(Repr)
      ensures queue == old(queue) && tags == old(tags) && depth == old(depth) && width == old(width)
      ensures count == 0 && Contents == []
      ensures output[..] == Flatten(old(Contents)) + old(output[position * width..])
      ensures tags[..] == Repeat(0, tags.Length)
    {
      var slots := queue[..];
      assert Distinct(slots);
      FlushSlots(slots, position, width, output, Contents);
      count := 0;
      position := 0;
      Fill(tags, 0);
      Contents := [];
    }

    /** qsc_queue_destroy: wipes and releases every slot, clears the tags and
        sets every counter and the width to 0. The slots are released by
        dropping them: the queue is left holding no slot at all. */
    method Destroy()
      requires Valid()
      modifies Repr
      ensures Valid() && fresh(Repr - old(Repr))
      ensures count == 0 && depth == 0 && position == 0 && width == 0 && Contents == []
      ensures tags == old(tags) && tags[..] == Repeat(0, tags.Length)
      ensures forall i, k :: 0 <= i < old(queue).Length && 0 <= k < old(queue)[i].Length ==> old(queue)[i][k] == 0
    {
      var slots := queue[..];
      assert Distinct(slots);
      WipeSlots(slots);
      var none := new bv8[0];
      queue := new array<bv8>[0](_ => none);
      Fill(tags, 0);
      count := 0;
      depth := 0;
      position := 0;
      width := 0;
      Contents := [];
      Repr := {this, queue, tags};
    }
  }

  /** Item i of the self test: 16 bytes holding (i + j) mod 256 at index j. */
  function Expected(i: int): (item: seq<bv8>)
    ensures |item| == 16
  {
    seq(16, j => ((i + j) % 256) as bv8)
  }

  /** The first n self-test items, in order. */
  function ExpectedItems(n: nat): (items: seq<seq<bv8>>)
    ensures |items| == n && AllWidth(items, 16)
  {
    seq(n, i => Expected(i))
  }

  /** The tags of the first n self-test items: item i carries tag i. */
  function ExpectedTags(n: nat): (t: seq<bv64>)
    requires n <= 64
    ensures |t| == n
  {
    seq(n, i requires 0 <= i < n => i as bv64)
  }

  /** The self-test items and tags grow one at a time. */
  lemma ExpectedSnoc(i: nat)
    requires i < 64
    ensures ExpectedItems(i + 1) == ExpectedItems(i) + [Expected(i)]
    ensures ExpectedTags(i + 1) == ExpectedTags(i) + [i as bv64]
    ensures Repeat(63 as bv64, i + 1) == Repeat(63 as bv64, i) + [63]
  {
  }

  /** After the shift of a pop, tags that counted up from i count up from
      i + 1. */
  lemma CountingTagsShift(t0: seq<bv64>, t: seq<bv64>, p: nat, i: nat)
    requires 1 <= p <= |t0| && i + p <= 64
    requires t == t0[1..p] + [0] + t0[p..]
    requires forall j :: 0 <= j < p ==> t0[j] == (i + j) as bv64
    ensures forall j :: 0 <= j < p - 1 ==> t[j] == (i + 1 + j) as bv64
  {
    forall j | 0 <= j < p - 1
      ensures t[j] == (i + 1 + j) as bv64
    {
      assert t[j] == t0[j + 1];
    }
  }

  /** The fill loops of qsc_queue_self_test (lines 177-180 and 211-214): items
      0 .. 63 are pushed in order, item i with tag i. */
  method PushExpected(q: QueueState)
    requires q.Valid() && q.Contents == [] && q.depth == 64 && q.width == 16
    modifies q.Repr
    ensures q.Valid() && q.Repr == old(q.Repr) && q.depth == 64 && q.width == 16
    ensures q.Contents == ExpectedItems(64)
    ensures q.tags.Length >= 64 && forall j :: 0 <= j < 64 ==> q.tags[j] == j as bv64
  {
    var i := 0;
    while i < 64
      invariant 0 <= i <= 64
      invariant q.Valid() && q.Repr == old(q.Repr) && q.depth == 64 && q.width == 16
      invariant q.Contents == ExpectedItems(i)
      invariant forall j :: 0 <= j < i ==> q.tags[j] == j as bv64
    {
      var item := Expected(i);
      q.Push(item, 16, i as bv64);
      assert item[..16] + Zeros(0) == item;
      ExpectedSnoc(i);
      i := i + 1;
    }
  }

  /** The drain loop of qsc_queue_self_test (lines 187-190): 64 pops, each
      into its own 16-byte buffer. The buffers' contents and the tags the pops
      return are given back: the items come out in push order, but every pop
      returns 63, the tag of the last item pushed. The self test discards the
      tags. */
  method PopExpected(q: QueueState) returns (outputs: seq<seq<bv8>>, tags: seq<bv64>)
    requires q.Valid() && q.Contents == ExpectedItems(64) && q.depth == 64 && q.width == 16
    requires q.tags.Length >= 64 && forall j :: 0 <= j < 64 ==> q.tags[j] == j as bv64
    modifies q.Repr
    ensures q.Valid() && q.Repr == old(q.Repr) && q.depth == 64 && q.width == 16
    ensures q.Contents == [] && outputs == ExpectedItems(64) && tags == Repeat(63, 64)
  {
    outputs := [];
    tags := [];
    var i := 0;
    while i < 64
      invariant 0 <= i <= 64
      invariant q.Valid() && q.Repr == old(q.Repr) && q.depth == 64 && q.width == 16
      invariant q.Contents == ExpectedItems(64)[i..]
      invariant outputs == ExpectedItems(i) && tags == Repeat(63, i)
      invariant forall j :: 0 <= j < 64 - i ==> q.tags[j] == (i + j) as bv64
    {
      var item, tag := PopNext(q, i);
      outputs := outputs + [item];
      tags := tags + [tag];
      ExpectedSnoc(i);
      i := i + 1;
    }
  }

  /** One pass of the drain loop (line 189): qsc_queue_pop of item i into a
      fresh 16-byte buffer. The tag returned is the one at position-1, which
      is 63 on every pass. */
  method PopNext(q: QueueState, i: nat) returns (item: seq<bv8>, tag: bv64)
    requires i < 64
    requires q.Valid() && q.Contents == ExpectedItems(64)[i..] && q.depth == 64 && q.width == 16
    requires forall j :: 0 <= j < 64 - i ==> q.tags[j] == (i + j) as bv64
    modifies q.Repr
    ensures q.Valid() && q.Repr == old(q.Repr) && q.depth == 64 && q.width == 16
    ensures q.Contents == ExpectedItems(64)[i + 1..]
    ensures forall j :: 0 <= j < 63 - i ==> q.tags[j] == (i + 1 + j) as bv64
    ensures item == Expected(i) && tag == 63
  {
    var output := new bv8[16];
    ghost var t0 := q.tags[..];
    tag := q.Pop(output, 16);
    CountingTagsShift(t0, q.tags[..], 64 - i, i);
    item := output[..];
    assert ExpectedItems(64)[i..][1..] == ExpectedItems(64)[i + 1..];
  }

  /** Lines 169-209 of qsc_queue_self_test on a fresh 64-deep queue of
      16-byte slots: fill it, check it is full, drain it, check it is empty
      and holds no item, and compare each output with its input. */
  method FillAndDrain(q: QueueState) returns (res: bool)
    requires q.Valid() && q.Contents == [] && q.depth == 64 && q.width == 16
    modifies q.Repr
    ensures q.Valid() && q.Repr == old(q.Repr) && q.depth == 64 && q.width == 16
    ensures q.Contents == [] && res
  {
    res := true;
    PushExpected(q);
    if !q.IsFull() {
      res := false;
    }
    var outputs, _ := PopExpected(q);
    if !q.IsEmpty() {
      res := false;
    }
    if q.Items() != 0 {
      res := false;
    }
    var i := 0;
    while i < 64
      invariant 0 <= i <= 64 && res
      modifies {}
    {
      if outputs[i] != Expected(i) {
        res := false;
        break;
      }
      i := i + 1;
    }
  }

  /** Lines 211-230 of qsc_queue_self_test: fill the emptied queue again,
      check it holds 64 items, flush it to a 1024-byte buffer and compare each
      16-byte block of that buffer with its input. */
  method FillAndFlush(q: QueueState) returns (res: bool)
    requires q.Valid() && q.Contents == [] && q.depth == 64 && q.width == 16
    modifies q.Repr
    ensures q.Valid() && q.Repr == old(q.Repr) && q.Contents == [] && res
  {
    res := true;
    PushExpected(q);
    if q.Items() != 64 {
      res := false;
    }
    var flushed := new bv8[64 * 16];
    q.Flush(flushed);
    assert flushed[..] == Flatten(ExpectedItems(64));
    var i := 0;
    while i < 64
      invariant 0 <= i <= 64 && res
      modifies {}
    {
      FlattenBlock(ExpectedItems(64), 16, i);
      if flushed[i * 16 .. (i + 1) * 16] != Expected(i) {
        res := false;
        break;
      }
      i := i + 1;
    }
  }

  /** qsc_queue_self_test: a 64-deep queue of 16-byte slots is filled,
      checked full, drained and checked empty, its outputs compared with the
      inputs, filled again, checked to hold 64 items, flushed, the flushed
      blocks compared with the inputs, and destroyed. Every check passes. */
  method SelfTest() returns (res: bool)
    ensures res
  {
    var q := new QueueState(64, 16);
    res := FillAndDrain(q);
    var flushed := FillAndFlush(q);
    res := res && flushed;
    q.Destroy();
  }

  /** Pushes item [7] with tag 1 and item [9] with tag 2 to a 2-deep queue of
      1-byte slots, then pops once: the oldest item comes out, but with the tag
      of the newest. */
  method PopTagOfNewest() returns (item: bv8, tag: bv64)
    ensures item == 7 && tag == 2
  {
    var q := new QueueState(2, 1);
    q.Push([7], 1, 1);
    q.Push([9], 1, 2);
    var output := new bv8[1];
    tag := q.Pop(output, 1);
    item := output[0];
  }

  /** The same pushes followed by PopFifo: the oldest item comes out with its
      own tag. */
  method PopFifoTagOfOldest() returns (item: bv8, tag: bv64)
    ensures item == 7 && tag == 1
  {
    var q := new QueueState(2, 1);
    q.Push([7], 1, 1);
    q.Push([9], 1, 2);
    var output := new bv8[1];
    tag := q.PopFifo(output, 1);
    item := output[0];
  }

  /** One pass of the corrected drain: PopFifo of item i into a fresh 16-byte
      buffer returns item i with its own tag i. */
  method PopNextFifo(q: QueueState, i: nat) returns (item: seq<bv8>, tag: bv64)
    requires i < 64
    requires q.Valid() && q.Contents == ExpectedItems(64)[i..] && q.depth == 64 && q.width == 16
    requires forall j :: 0 <= j < 64 - i ==> q.tags[j] == (i + j) as bv64
    modifies q.Repr
    ensures q.Valid() && q.Repr == old(q.Repr) && q.depth == 64 && q.width == 16
    ensures q.Contents == ExpectedItems(64)[i + 1..]
    ensures forall j :: 0 <= j < 63 - i ==> q.tags[j] == (i + 1 + j) as bv64
    ensures item == Expected(i) && tag == i as bv64
  {
    var output := new bv8[16];
    ghost var t0 := q.tags[..];
    tag := q.PopFifo(output, 16);
    CountingTagsShift(t0, q.tags[..], 64 - i, i);
    item := output[..];
    assert ExpectedItems(64)[i..][1..] == ExpectedItems(64)[i + 1..];
  }

  /** The drain loop with the corrected pop: the 64 items come out in push
      order, each with its own tag, and the queue ends empty. */
  method DrainFifo(q: QueueState) returns (outputs: seq<seq<bv8>>, tags: seq<bv64>)
    requires q.Valid() && q.Contents == ExpectedItems(64) && q.depth == 64 && q.width == 16
    requires q.tags.Length >= 64 && forall j :: 0 <= j < 64 ==> q.tags[j] == j as bv64
    modifies q.Repr
    ensures q.Valid() && q.Repr == old(q.Repr) && q.depth == 64 && q.width == 16
    ensures q.Contents == [] && outputs == ExpectedItems(64) && tags == ExpectedTags(64)
  {
    outputs := [];
    tags := [];
    var i := 0;
    while i < 64
      invariant 0 <= i <= 64
      invariant q.Valid() && q.Repr == old(q.Repr) && q.depth == 64 && q.width == 16
      invariant q.Contents == ExpectedItems(64)[i..]
      invariant outputs == ExpectedItems(i) && tags == ExpectedTags(i)
      invariant forall j :: 0 <= j < 64 - i ==> q.tags[j] == (i + j) as bv64
    {
      var item, tag := PopNextFifo(q, i);
      outputs := outputs + [item];
      tags := tags + [tag];
      ExpectedSnoc(i);
      i := i + 1;
    }
  }

  /** The self test's fill and drain with the corrected pop: 64 items pushed
      with tags 0 .. 63 into a new queue come back out in push order, each
      with its own tag. */
  method FifoRoundTrip() returns (outputs: seq<seq<bv8>>, tags: seq<bv64>)
    ensures outputs == ExpectedItems(64) && tags == ExpectedTags(64)
  {
    var q := new QueueState(64, 16);
    PushExpected(q);
    outputs, tags := DrainFifo(q);
  }
}
