/** A size-limited FIFO queue kept as a singly linked chain of fixed-size
    chunks. Items are written at the tail chunk's `last` cursor and read at
    the head chunk's `first` cursor; the limit on the number of items is
    only consulted when a new chunk has to be linked in. */
module LimitFifo {

  /** Number of slots in every chunk. */
  const ChunkSize: int := 64

  /** Error codes carried by ErrLimitFifo. */
  const ErrAddNil: int := 0
  const ErrOutOfSizeLimit: int := 1

  /** An item slot: `None` plays the part of the nil interface value. */
  datatype Option<T> = None | Some(value: T)

  /** The error value returned by SafeAdd. */
  datatype ErrLimitFifo = ErrLimitFifo(eid: int)
  {
    /** The message of the error: one per known code, a fallback otherwise. */
    function Error(): (msg: string)
      ensures eid == ErrAddNil <==> msg == "can not add nil item to fifo queue"
      ensures eid == ErrOutOfSizeLimit <==> msg == "out of max chunk number"
      ensures eid != ErrAddNil && eid != ErrOutOfSizeLimit <==> msg == "unknown error"
    {
      if eid == ErrAddNil then "can not add nil item to fifo queue"
      else if eid == ErrOutOfSizeLimit then "out of max chunk number"
      else "unknown error"
    }
  }

  function Max(a: int, b: int): (r: int)
  {
    if a < b then b else a
  }

  /** The items of a sequence of runs, one run after the other. */
  function Concat<T>(ss: seq<seq<T>>): (r: seq<T>)
  {
    if ss == [] then [] else ss[0] + Concat(ss[1..])
  }

  /** Appending a run at the back appends its items at the back. */
  lemma {:induction false} ConcatSnoc<T>(ss: seq<seq<T>>, s: seq<T>)
    ensures Concat(ss + [s]) == Concat(ss) + s
  {
    if ss != [] {
      calc {
        Concat(ss + [s]);
        { assert (ss + [s])[1..] == ss[1..] + [s]; }
        ss[0] + Concat(ss[1..] + [s]);
        { ConcatSnoc(ss[1..], s); }
        ss[0] + (Concat(ss[1..]) + s);
      }
    }
  }

  /** Growing the last run by one item appends that item at the back. */
  lemma ConcatPushLast<T>(init: seq<seq<T>>, run: seq<T>, x: T)
    ensures Concat(init + [run + [x]]) == Concat(init + [run]) + [x]
  {
    ConcatSnoc(init, run);
    ConcatSnoc(init, run + [x]);
    assert Concat(init) + (run + [x]) == (Concat(init) + run) + [x];
  }

  /** One storage unit of the chain: the occupied region is items[first..last). */
  class Chunk<T> {
    var items: seq<Option<T>>
    var first: int
    var last: int
    var next: Chunk?<T>
    /** Creation number of the chunk; it only serves to tell chunks apart. */
    ghost const serial: int

    /** A fresh chunk: every slot nil, both cursors at zero, no successor. */
    constructor (ghost serial: int)
      ensures |items| == ChunkSize && forall k :: 0 <= k < ChunkSize ==> items[k] == None
      ensures first == 0 && last == 0 && next == null && this.serial == serial
    {
      items := seq(ChunkSize, _ => None);
      first, last, next := 0, 0, null;
      this.serial := serial;
    }

    /** The chunk's cursors are in range and its occupied region holds `run`. */
    ghost predicate Holds(run: seq<T>)
      reads this`items, this`first, this`last
    {
      |items| == ChunkSize &&
      0 <= first <= last <= ChunkSize &&
      last - first == |run| &&
      forall k :: 0 <= k < |run| ==> items[first + k] == Some(run[k])
    }
  }

  /** The chunks of a chain carry consecutive creation numbers, so no chunk
      occurs twice in it. */
  ghost predicate Numbered<T>(c: seq<Chunk<T>>)
  {
    forall i :: 0 <= i < |c| ==> c[i].serial == c[0].serial + i
  }

  /** Each chunk of a non-empty chain links to the next one and the last
      chunk links to `end`. */
  ghost predicate LinkedTo<T>(c: seq<Chunk<T>>, end: Chunk?<T>)
    reads c`next
    decreases |c|
  {
    |c| >= 1 &&
    if |c| == 1 then c[0].next == end else c[0].next == c[1] && LinkedTo(c[1..], end)
  }

  /** A chain linked to `d`, followed by `d`, is linked to where `d` links. */
  lemma {:induction false} LinkedAppend<T>(c: seq<Chunk<T>>, d: Chunk<T>, end: Chunk?<T>)
    requires LinkedTo(c, d) && d.next == end
    ensures LinkedTo(c + [d], end)
  {
    if |c| > 1 {
      assert (c + [d])[1..] == c[1..] + [d];
      LinkedAppend(c[1..], d, end);
    }
  }

  /** Dropping the last chunk of a linked chain leaves a chain linked to it. */
  lemma {:induction false} LinkedPrefix<T>(c: seq<Chunk<T>>, end: Chunk?<T>)
    requires LinkedTo(c, end) && |c| >= 2
    ensures LinkedTo(c[..|c| - 1], c[|c| - 1])
  {
    if |c| > 2 {
      assert c[1..][..|c| - 2] == c[..|c| - 1][1..];
      LinkedPrefix(c[1..], end);
    }
  }

  /** Each chunk of a chain holds its run; every chunk but the last is full
      and every chunk but the first starts at slot 0. */
  ghost predicate Stored<T>(c: seq<Chunk<T>>, runs: seq<seq<T>>)
    reads c`items, c`first, c`last
    decreases |c|
  {
    |c| == |runs| &&
    (|c| >= 1 ==> c[0].Holds(runs[0])) &&
    (|c| >= 2 ==> c[0].last == ChunkSize && c[1].first == 0 && Stored(c[1..], runs[1..]))
  }

  /** A stored chain extended by a chunk that holds one more run. */
  lemma {:induction false} StoredSnoc<T>(c: seq<Chunk<T>>, runs: seq<seq<T>>, d: Chunk<T>, run: seq<T>)
    requires Stored(c, runs) && d.Holds(run)
    requires |c| >= 1 ==> c[|c| - 1].last == ChunkSize && d.first == 0
    ensures Stored(c + [d], runs + [run])
  {
    if |c| >= 1 {
      assert (c + [d])[1..] == c[1..] + [d];
      assert (runs + [run])[1..] == runs[1..] + [run];
      StoredSnoc(c[1..], runs[1..], d, run);
    }
  }

  /** The converse: the last chunk of a stored chain split off. */
  lemma {:induction false} StoredPrefix<T>(c: seq<Chunk<T>>, runs: seq<seq<T>>)
    requires Stored(c, runs) && |c| >= 1
    ensures Stored(c[..|c| - 1], runs[..|runs| - 1]) && c[|c| - 1].Holds(runs[|runs| - 1])
    ensures |c| >= 2 ==> c[|c| - 2].last == ChunkSize && c[|c| - 1].first == 0
  {
    if |c| >= 2 {
      StoredPrefix(c[1..], runs[1..]);
      assert c[1..][..|c| - 2] == c[..|c| - 1][1..];
      assert runs[1..][..|runs| - 2] == runs[..|runs| - 1][1..];
    }
  }

  /** When the first chunk is read from slot 0, every chunk before the last
      one is full, so the items before the last chunk fill whole chunks. */
  lemma {:induction false} FullBeforeLast<T>(c: seq<Chunk<T>>, runs: seq<seq<T>>)
    requires Stored(c, runs) && |c| >= 1 && c[0].first == 0
    ensures |Concat(runs[..|runs| - 1])| == ChunkSize * (|c| - 1)
  {
    if |c| >= 2 {
      FullBeforeLast(c[1..], runs[1..]);
      assert runs[..|runs| - 1] == [runs[0]] + runs[1..][..|runs| - 2];
    }
  }

  /** Sum of the occupied lengths `last - first` over a chain of chunks. */
  ghost function Occupancy<T>(c: seq<Chunk<T>>): (r: int)
    reads c`first, c`last
  {
    if c == [] then 0 else c[0].last - c[0].first + Occupancy(c[1..])
  }

  /** When every chunk holds its run, the occupancy is the number of items. */
  lemma {:induction false} OccupancyOfRuns<T>(c: seq<Chunk<T>>, ss: seq<seq<T>>)
    requires Stored(c, ss)
    ensures Occupancy(c) == |Concat(ss)|
  {
    if c != [] {
      OccupancyOfRuns(c[1..], ss[1..]);
    }
  }

  class Queue<T> {
    var head: Chunk<T>
    var tail: Chunk<T>
    var maxsize: int
    var count: int

    /** The chunks from head to tail, in link order. */
    ghost var chain: seq<Chunk<T>>
    /** The items held by each chunk of the chain. */
    ghost var runs: seq<seq<T>>
    /** The queued items, oldest first. */
    ghost var Contents: seq<T>
    ghost var Repr: set<object>

    /** The representation invariant, except that a chain of several chunks
        may end in an empty tail (the state just after a chunk is linked). */
    ghost predicate Coherent()
      reads this, Repr
      ensures Coherent() ==> this in Repr
    {
      this in Repr &&
      |chain| >= 1 && chain[0] == head && chain[|chain| - 1] == tail &&
      (forall i :: 0 <= i < |chain| ==> chain[i] in Repr) &&
      Numbered(chain) &&
      LinkedTo(chain, null) && Stored(chain, runs) &&
      Contents == Concat(runs) && count == |Contents| &&
      // a drained queue is one chunk, reset; otherwise the head holds the oldest item
      (count == 0 ==> |chain| == 1 && head.last == 0) &&
      (count > 0 ==> head.first < head.last) &&
      // items outside the tail chunk stay below the limit (or 1 when it is not positive)
      count - tail.last < Max(maxsize, 1)
    }

    /** The representation invariant: a tail behind the head holds an item. */
    ghost predicate Valid()
      reads this, Repr
      ensures Valid() ==> this in Repr
    {
      Coherent() && (|chain| > 1 ==> tail.last > 0)
    }

    /** NewLimitQueue: one empty chunk that is both head and tail. */
    constructor NewLimitQueue(maxChunkNum: int)
      ensures Valid() && fresh(Repr)
      ensures Contents == [] && count == 0 && maxsize == maxChunkNum * ChunkSize
      ensures head == tail && chain == [head]
      ensures head.first == 0 && head.last == 0 && head.next == null
    {
      var initChunk := new Chunk<T>(0);
      maxsize := maxChunkNum * ChunkSize;
      head, tail := initChunk, initChunk;
      count := 0;
      chain, runs, Contents := [initChunk], [[]], [];
      Repr := {this, initChunk};
    }

    /** Len: the number of queued items. */
    method Len() returns (length: int)
      requires Valid()
      ensures length == |Contents|
    {
      length := count;
    }

    /** An insertion of a non-nil item succeeds: the tail chunk has room, or
        the item count is below the limit so that a new chunk may be linked. */
    predicate CanAccept()
      reads this, tail
    {
      tail.last < ChunkSize || count < maxsize
    }

    /** Links a fresh empty chunk behind the full tail and makes it the tail. */
    method LinkChunk()
      requires Valid() && tail.last >= ChunkSize && count < maxsize
      modifies this, tail`next
      ensures Coherent() && fresh(Repr - old(Repr))
      ensures Contents == old(Contents) && count == old(count) && maxsize == old(maxsize)
      ensures head == old(head) && fresh(tail) && old(tail).next == tail
      ensures chain == old(chain) + [tail] && tail.first == 0 && tail.last == 0
    {
      var c := new Chunk<T>(tail.serial + 1);
      ghost var c0, r0 := chain, runs;
      if |c0| >= 2 {
        LinkedPrefix(c0, null);
      }
      tail.next, tail, chain, runs, Repr := c, c, c0 + [c], r0 + [[]], Repr + {c};
      ChunkAppended(c0, r0);
    }

    /** Coherence of a chain grown by a fresh empty chunk behind a full tail. */
    lemma ChunkAppended(c0: seq<Chunk<T>>, r0: seq<seq<T>>)
      requires |c0| >= 1 && chain == c0 + [tail] && runs == r0 + [[]] && head == c0[0]
      requires |c0| >= 2 ==> LinkedTo(c0[..|c0| - 1], c0[|c0| - 1])
      requires c0[|c0| - 1].next == tail && tail.next == null
      requires Numbered(c0) && tail.serial == c0[|c0| - 1].serial + 1
      requires Stored(c0, r0) && c0[|c0| - 1].last >= ChunkSize
      requires |tail.items| == ChunkSize && tail.first == 0 && tail.last == 0
      requires this in Repr && tail in Repr && forall i :: 0 <= i < |c0| ==> c0[i] in Repr
      requires Contents == Concat(r0) && count == |Contents| && 0 < count < maxsize
      requires head.first < head.last
      ensures Coherent()
    {
      if |c0| >= 2 {
        LinkedAppend(c0[..|c0| - 1], c0[|c0| - 1], tail);
        assert c0[..|c0| - 1] + [c0[|c0| - 1]] == c0;
      }
      LinkedAppend(c0, tail, null);
      StoredPrefix(c0, r0);
      StoredSnoc(c0, r0, tail, []);
      ConcatSnoc(r0, []);
    }

    /** Writes an item at the tail's last cursor, which has room. */
    method PutLast(x: T)
      requires Coherent() && tail.last < ChunkSize
      modifies this, tail`items, tail`last
      ensures Valid() && Repr == old(Repr)
      ensures Contents == old(Contents) + [x] && count == old(count) + 1
      ensures maxsize == old(maxsize) && head == old(head) && tail == old(tail) && chain == old(chain)
      ensures tail.last == old(tail.last) + 1
    {
      ghost var c0, init, run := chain[..|chain| - 1], runs[..|runs| - 1], runs[|runs| - 1];
      StoredPrefix(chain, runs);
      assert tail !in c0;
      tail.items, tail.last, count, runs, Contents :=
        tail.items[tail.last := Some(x)], tail.last + 1, count + 1, init + [run + [x]], Contents + [x];
      ItemPutKeeps(x);
    }

    /** The update made by PutLast keeps the queue coherent and leaves a
        non-empty tail. */
    twostate lemma ItemPutKeeps(x: T)
      requires old(Coherent()) && old(tail.last) < ChunkSize
      requires old(Stored(chain[..|chain| - 1], runs[..|runs| - 1]) && tail.Holds(runs[|runs| - 1]))
      requires old(|chain| >= 2 ==> chain[|chain| - 2].last == ChunkSize && tail.first == 0)
      requires chain == old(chain) && head == old(head) && tail == old(tail)
      requires Repr == old(Repr) && maxsize == old(maxsize)
      requires tail !in chain[..|chain| - 1] && unchanged(chain[..|chain| - 1])
      requires tail.first == old(tail.first) && tail.next == old(tail.next)
      requires tail.items == old(tail.items)[old(tail.last) := Some(x)] && tail.last == old(tail.last) + 1
      requires count == old(count) + 1 && Contents == old(Contents) + [x]
      requires runs == old(runs[..|runs| - 1] + [runs[|runs| - 1] + [x]])
      ensures Valid()
    {
      assert old(runs == runs[..|runs| - 1] + [runs[|runs| - 1]]);
      ghost var c0, init, run := chain[..|chain| - 1], old(runs[..|runs| - 1]), old(runs[|runs| - 1]);
      assert Stored(c0, init);
      assert LinkedTo(chain, null);
      assert tail.Holds(run + [x]);
      ItemPut(c0, init, run, x);
    }

    /** Coherence of a chain whose tail chunk took one more item; the
        tail is then no longer empty. */
    lemma ItemPut(c0: seq<Chunk<T>>, init: seq<seq<T>>, run: seq<T>, x: T)
      requires chain == c0 + [tail] && runs == init + [run + [x]] && head == chain[0]
      requires Stored(c0, init) && tail.Holds(run + [x])
      requires |c0| >= 1 ==> c0[|c0| - 1].last == ChunkSize && tail.first == 0
      requires this in Repr && (forall i :: 0 <= i < |chain| ==> chain[i] in Repr)
      requires Numbered(chain) && LinkedTo(chain, null)
      requires Contents == Concat(init + [run]) + [x] && count == |Contents|
      requires |c0| >= 1 ==> head.first < head.last
      requires count - tail.last < Max(maxsize, 1)
      ensures Valid()
    {
      StoredSnoc(c0, init, tail, run + [x]);
      ConcatPushLast(init, run, x);
    }

    /** The insertion shared by Add and SafeAdd, once the item is known to
        be non-nil and to fit: link a new chunk if the tail is full, then
        write at the tail's last cursor. */
    method PushBack(x: T)
      requires Valid() && CanAccept()
      modifies Repr
      ensures Valid() && fresh(Repr - old(Repr))
      ensures Contents == old(Contents) + [x] && count == old(count) + 1
      ensures maxsize == old(maxsize) && head == old(head) && head.first == old(head.first)
      ensures old(tail.last) < ChunkSize ==>
        tail == old(tail) && chain == old(chain) && tail.last == old(tail.last) + 1
      ensures old(tail.last) >= ChunkSize ==>
        fresh(tail) && old(tail).next == tail && chain == old(chain) + [tail] &&
        tail.first == 0 && tail.last == 1
    {
      if tail.last >= ChunkSize {
        LinkChunk();
      }
      PutLast(x);
    }

    /** Add: a nil item or a full tail at the limit is a panic, so both are
        excluded; otherwise the item is appended at the back. */
    method Add(item: Option<T>)
      requires Valid()
      requires item != None
      requires CanAccept()
      modifies Repr
      ensures Valid() && fresh(Repr - old(Repr))
      ensures Contents == old(Contents) + [item.value] && count == old(count) + 1
      ensures maxsize == old(maxsize) && head == old(head) && head.first == old(head.first)
      ensures tail.last == if old(tail.last) < ChunkSize then old(tail.last) + 1 else 1
      ensures old(tail.last) < ChunkSize ==> tail == old(tail) && chain == old(chain)
      ensures old(tail.last) >= ChunkSize ==>
        fresh(tail) && old(tail).next == tail && chain == old(chain) + [tail]
    {
      PushBack(item.value);
    }

    /** SafeAdd: reports a nil item or a full tail at the limit as an error
        and leaves the queue unchanged; otherwise appends the item. */
    method SafeAdd(item: Option<T>) returns (err: Option<ErrLimitFifo>)
      requires Valid()
      modifies Repr
      ensures Valid() && fresh(Repr - old(Repr))
      ensures maxsize == old(maxsize)
      ensures item == None ==> err == Some(ErrLimitFifo(ErrAddNil))
      ensures item != None && !old(CanAccept()) ==> err == Some(ErrLimitFifo(ErrOutOfSizeLimit))
      ensures err != None ==> unchanged(old(Repr)) && Contents == old(Contents) && count == old(count)
      ensures item != None && old(CanAccept()) ==>
        err == None && Contents == old(Contents) + [item.value] && count == old(count) + 1 &&
        head == old(head) && head.first == old(head.first) &&
        tail.last == (if old(tail.last) < ChunkSize then old(tail.last) + 1 else 1) &&
        (old(tail.last) < ChunkSize ==> tail == old(tail) && chain == old(chain)) &&
        (old(tail.last) >= ChunkSize ==>
          fresh(tail) && old(tail).next == tail && chain == old(chain) + [tail])
    {
      if item == None {
        return Some(ErrLimitFifo(ErrAddNil));
      }
      if tail.last >= ChunkSize && count >= maxsize {
        return Some(ErrLimitFifo(ErrOutOfSizeLimit));
      }
      PushBack(item.value);
      err := None;
    }

    /** Next: nil on an empty queue; otherwise removes and returns the
        oldest item, resetting or dropping the head chunk once exhausted. */
    method Next() returns (item: Option<T>)
      requires Valid()
      modifies Repr
      ensures Valid() && fresh(Repr - old(Repr))
      ensures maxsize == old(maxsize) && tail == old(tail)
      ensures old(count) == 0 ==> item == None && unchanged(old(Repr)) && Contents == old(Contents)
      ensures old(count) > 0 ==>
        item == Some(old(Contents)[0]) && Contents == old(Contents)[1..] && count == old(count) - 1
      ensures old(count) > 0 && old(head.first) + 1 < old(head.last) ==>
        head == old(head) && head.first == old(head.first) + 1 && chain == old(chain)
      ensures old(count) == 1 ==>
        head == old(head) && head == tail && head.first == 0 && head.last == 0 && head.next == null
      ensures old(count) > 1 && old(head.first) + 1 == old(head.last) ==>
        head == old(head.next) && chain == old(chain)[1..] && head.first == 0
      ensures old(count) != 1 ==> tail.last == old(tail.last)
    {
      if count == 0 {
        return None;
      }
      HeadNonEmpty();
      if head.first >= head.last {
        assert false;
        return None;
      }
      item := head.items[head.first];
      if head.first + 1 < head.last {
        DropWithinHead();
      } else if count == 1 {
        ResetHead();
      } else {
        AdvanceHead();
      }
    }

    /** The oldest item leaves a head chunk that still holds more. */
    method DropWithinHead()
      requires Valid() && count > 0 && head.first + 1 < head.last
      modifies this, head`first
      ensures Valid() && Repr == old(Repr)
      ensures Contents == old(Contents)[1..] && count == old(count) - 1
      ensures maxsize == old(maxsize) && head == old(head) && tail == old(tail) && chain == old(chain)
      ensures head.first == old(head.first) + 1 && tail.last == old(tail.last)
    {
      ghost var run0 := runs[0];
      assert Contents == run0 + Concat(runs[1..]);
      head.first, count, runs, Contents := head.first + 1, count - 1, [run0[1..]] + runs[1..], Contents[1..];
    }

    /** The last queued item leaves: the only chunk is reset for reuse. */
    method ResetHead()
      requires Valid() && count == 1
      modifies this, head`first, head`last, head`next
      ensures Valid() && Repr == old(Repr)
      ensures Contents == [] && count == 0
      ensures maxsize == old(maxsize) && head == old(head) && tail == old(tail) && chain == old(chain)
      ensures head == tail && head.first == 0 && head.last == 0 && head.next == null
    {
      SingleItemInOneChunk();
      head.first, head.last, head.next, count, runs, Contents := 0, 0, null, 0, [[]], [];
    }

    /** The oldest item is the last one of the head chunk and more items
        follow: the next chunk becomes the head. */
    method AdvanceHead()
      requires Valid() && count > 1 && head.first + 1 == head.last
      modifies this, head`first
      ensures Valid() && Repr == old(Repr) - {old(head)}
      ensures Contents == old(Contents)[1..] && count == old(count) - 1
      ensures maxsize == old(maxsize) && tail == old(tail)
      ensures head == old(head.next) && chain == old(chain)[1..]
      ensures head.first == 0 && tail.last == old(tail.last)
    {
      var h := head;
      ghost var run0 := runs[0];
      assert Contents == run0 + Concat(runs[1..]);
      h.first, count, head, chain, runs, Contents, Repr :=
        h.first + 1, count - 1, h.next, chain[1..], runs[1..], Contents[1..], Repr - {h};
    }

    /** Whenever items are queued the head chunk holds the oldest one, so the
        guard `head.first >= head.last` after the emptiness check never fires. */
    lemma HeadNonEmpty()
      requires Valid() && count > 0
      ensures head.first < head.last && head.items[head.first] == Some(Contents[0])
    {
    }

    /** A single queued item sits in the only chunk of the chain. */
    lemma SingleItemInOneChunk()
      requires Valid() && count == 1
      ensures |chain| == 1 && head == tail && head.first + 1 == head.last
    {
      if |chain| > 1 {
        // the head and the (non-empty) tail would hold two items between them
        assert runs[..|runs| - 1] + [runs[|runs| - 1]] == runs;
        StoredPrefix(chain, runs);
        ConcatSnoc(runs[..|runs| - 1], runs[|runs| - 1]);
        assert false;
      }
    }

    /** An empty queue is a single reset chunk that is both head and tail. */
    lemma EmptyIsOneResetChunk()
      requires Valid() && count == 0
      ensures |chain| == 1 && head == tail && head.first == 0 && head.last == 0
    {
    }

    /** The item count is the sum of `last - first` over the chain. */
    lemma CountIsOccupancy()
      requires Valid()
      ensures count == Occupancy(chain)
    {
      OccupancyOfRuns(chain, runs);
    }

    /** The limit is consulted only for a new chunk, so the count can pass
        it by up to one chunk less one item. */
    lemma CountBound()
      requires Valid()
      ensures 0 <= count <= Max(maxsize, 1) + ChunkSize - 1
    {
      StoredPrefix(chain, runs);
    }

    /** Without a removal from the head chunk, a limit of m >= 1 chunks
        admits exactly m * 64 items: an insertion is accepted precisely
        while fewer are queued. */
    lemma CapacityWithoutRemovals()
      requires Valid() && head.first == 0
      requires maxsize > 0 && maxsize % ChunkSize == 0
      ensures count <= maxsize
      ensures CanAccept() <==> count < maxsize
    {
      var init, run := runs[..|runs| - 1], runs[|runs| - 1];
      assert runs == init + [run];
      FullBeforeLast(chain, runs);
      StoredPrefix(chain, runs);
      ConcatSnoc(init, run);
      assert count == ChunkSize * (|chain| - 1) + tail.last;
      var m := maxsize / ChunkSize;
      assert ChunkSize * (|chain| - 1) < ChunkSize * m;
      assert ChunkSize * (|chain| - 1) <= ChunkSize * (m - 1);
    }

    /** A limit of zero chunks or less still lets the initial chunk fill:
        the queue stays one chunk of at most 64 items. */
    lemma NonPositiveLimit()
      requires Valid() && maxsize <= 0
      ensures |chain| == 1 && count <= ChunkSize
      ensures CanAccept() <==> tail.last < ChunkSize
    {
      StoredPrefix(chain, runs);
      if |chain| > 1 {
        var init, run := runs[..|runs| - 1], runs[|runs| - 1];
        assert runs == init + [run];
        assert init == [runs[0]] + init[1..];
        ConcatSnoc(init, run);
        assert false;
      }
    }
  }

  /** Removing items until the queue is empty returns every queued item,
      oldest first. */
  method Drain<T>(q: Queue<T>) returns (drained: seq<Option<T>>)
    requires q.Valid()
    modifies q.Repr
    ensures q.Valid() && fresh(q.Repr - old(q.Repr)) && q.Contents == [] && q.count == 0
    ensures |drained| == |old(q.Contents)|
    ensures forall k :: 0 <= k < |drained| ==> drained[k] == Some(old(q.Contents)[k])
  {
    ghost var full := q.Contents;
    drained := [];
    while q.count > 0
      invariant q.Valid() && fresh(q.Repr - old(q.Repr))
      invariant |drained| <= |full| && q.Contents == full[|drained|..]
      invariant forall k :: 0 <= k < |drained| ==> drained[k] == Some(full[k])
      decreases q.count
    {
      var item := q.Next();
      drained := drained + [item];
    }
  }

  /** A queue limited to one chunk, filled with the items 0 to 63. */
  method FillOneChunk() returns (q: Queue<int>)
    ensures q.Valid() && fresh(q.Repr)
    ensures q.maxsize == ChunkSize && q.head.first == 0 && q.tail.last == ChunkSize && |q.chain| == 1
    ensures |q.Contents| == ChunkSize && forall k :: 0 <= k < ChunkSize ==> q.Contents[k] == k
  {
    q := new Queue<int>.NewLimitQueue(1);
    var i := 0;
    while i < ChunkSize
      invariant 0 <= i <= ChunkSize
      invariant q.Valid() && fresh(q.Repr)
      invariant q.maxsize == ChunkSize && q.head.first == 0 && q.tail.last == i && |q.chain| == 1
      invariant |q.Contents| == i && forall k :: 0 <= k < i ==> q.Contents[k] == k
    {
      var err := q.SafeAdd(Some(i));
      i := i + 1;
    }
  }

  /** On a full one-chunk queue a 65th insertion is refused, and a removal
      then returns the oldest item from the still full chunk. */
  method RefuseThenRemove() returns (q: Queue<int>, refused: Option<ErrLimitFifo>, first: Option<int>)
    ensures q.Valid() && fresh(q.Repr)
    ensures refused == Some(ErrLimitFifo(ErrOutOfSizeLimit)) && first == Some(0)
    ensures |q.Contents| == ChunkSize - 1 && forall k :: 0 <= k < ChunkSize - 1 ==> q.Contents[k] == k + 1
    ensures q.maxsize == ChunkSize && |q.chain| == 1 && q.head.first == 1 && q.tail.last == ChunkSize
  {
    q := FillOneChunk();
    refused := q.SafeAdd(Some(ChunkSize));
    first := q.Next();
  }

  /** After that removal the refused insertion succeeds: it links a second
      chunk although the queue already used its one-chunk allowance. */
  method RefuseThenReadd() returns (q: Queue<int>, refused: Option<ErrLimitFifo>,
                                    first: Option<int>, readded: Option<ErrLimitFifo>)
    ensures q.Valid() && fresh(q.Repr)
    ensures refused == Some(ErrLimitFifo(ErrOutOfSizeLimit))
    ensures first == Some(0) && readded == None
    ensures |q.Contents| == ChunkSize && forall k :: 0 <= k < ChunkSize ==> q.Contents[k] == k + 1
    ensures q.maxsize == ChunkSize && |q.chain| == 2 && q.head.first == 1 && q.tail.last == 1
  {
    q, refused, first := RefuseThenRemove();
    readded := q.SafeAdd(Some(ChunkSize));
  }

  /** The limit is consulted only when a chunk is linked: after one removal
      from a full one-chunk queue, the second chunk takes 64 items, so the
      queue spans two chunks and holds 63 items more than the limit. */
  method PastTheLimit() returns (q: Queue<int>)
    ensures q.Valid() && fresh(q.Repr)
    ensures q.maxsize == ChunkSize && |q.chain| == 2
    ensures q.count == q.maxsize + ChunkSize - 1 && !q.CanAccept()
  {
    var refused, first, readded;
    q, refused, first, readded := RefuseThenReadd();
    var i := 1;
    while i < ChunkSize
      invariant 1 <= i <= ChunkSize
      invariant q.Valid() && fresh(q.Repr)
      invariant q.maxsize == ChunkSize && |q.chain| == 2
      invariant q.tail.last == i && q.count == ChunkSize + i - 1
    {
      q.Add(Some(ChunkSize + i));
      i := i + 1;
    }
  }

  /** A client run with a limit of one chunk: 64 insertions succeed, the
      65th is refused, one removal makes room again, and draining returns
      the remaining items in insertion order, then nil. */
  method OneChunkScenario() returns (refused: Option<ErrLimitFifo>, first: Option<int>,
                                     readded: Option<ErrLimitFifo>, drained: seq<Option<int>>,
                                     last: Option<int>, length: int)
    ensures refused == Some(ErrLimitFifo(ErrOutOfSizeLimit))
    ensures first == Some(0) && readded == None
    ensures |drained| == ChunkSize && forall k :: 0 <= k < ChunkSize ==> drained[k] == Some(k + 1)
    ensures last == None && length == 0
  {
    var q;
    q, refused, first, readded := RefuseThenReadd();
    drained := Drain(q);
    last := q.Next();
    length := q.Len();
  }
}
