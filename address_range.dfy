/** Read-range merging (src/modbus_client/registers/address_range.py): many
    (address, count) requests become fewer read buckets. */
module AddressRanges {
  import opened Wrappers

  /** `count` consecutive words starting at `address`. */
  datatype AddressRange = AddressRange(address: int, count: int) {
    function FirstAddress(): int {
      address
    }

    function LastAddress(): int {
      address + count - 1
    }
  }

  /** `inner` lies entirely inside `outer`: the test that skips an already covered range. */
  predicate Contains(outer: AddressRange, inner: AddressRange) {
    inner.FirstAddress() >= outer.FirstAddress() && inner.LastAddress() <= outer.LastAddress()
  }

  /** Some range of `pool` reads address `a`. */
  predicate Requested(pool: seq<AddressRange>, a: int) {
    exists r :: r in pool && r.FirstAddress() <= a <= r.LastAddress()
  }

  /** Every address of `b` is read by some range of `pool`: the bucket has no holes. */
  predicate Gapless(b: AddressRange, pool: seq<AddressRange>) {
    forall a :: b.FirstAddress() <= a <= b.LastAddress() ==> Requested(pool, a)
  }

  // ---------------------------------------------------------------------------
  // The sort key (address ascending, count descending)

  /** `x` may come before `y` under the key `(address, -count)`. */
  predicate KeyLe(x: AddressRange, y: AddressRange) {
    x.address < y.address || (x.address == y.address && x.count >= y.count)
  }

  predicate Sorted(s: seq<AddressRange>) {
    forall i, j {:trigger KeyLe(s[i], s[j])} :: 0 <= i < j < |s| ==> KeyLe(s[i], s[j])
  }

  /** One step of the insertion sort: `x` placed before the first range it may precede. */
  function Insert(x: AddressRange, s: seq<AddressRange>): seq<AddressRange>
  {
    if s == [] || KeyLe(x, s[0]) then
      [x] + s
    else
      [s[0]] + Insert(x, s[1..])
  }

  /** Inserting adds `x` and loses nothing. */
  lemma {:induction false} InsertPermutes(x: AddressRange, s: seq<AddressRange>)
    ensures multiset(Insert(x, s)) == multiset(s) + multiset{x}
  {
    if s != [] && !KeyLe(x, s[0]) {
      InsertPermutes(x, s[1..]);
      assert s == [s[0]] + s[1..];
    }
  }

  lemma {:induction false} InsertSorted(x: AddressRange, s: seq<AddressRange>)
    requires Sorted(s)
    ensures Sorted(Insert(x, s))
  {
    if s != [] && !KeyLe(x, s[0]) {
      var rest := Insert(x, s[1..]);
      InsertSorted(x, s[1..]);
      InsertPermutes(x, s[1..]);
      var r := [s[0]] + rest;
      forall i, j | 0 <= i < j < |r|
        ensures KeyLe(r[i], r[j])
      {
        if i == 0 {
          var y := rest[j - 1];
          assert multiset(rest)[y] > 0;
          if y != x {
            assert multiset(s[1..])[y] > 0;
            var k :| 0 <= k < |s[1..]| && s[1..][k] == y;
            assert KeyLe(s[0], s[k + 1]);
          }
        } else {
          assert r[i] == rest[i - 1] && r[j] == rest[j - 1];
          assert KeyLe(rest[i - 1], rest[j - 1]);
        }
      }
    } else {
      var r := [x] + s;
      forall i, j | 0 <= i < j < |r|
        ensures KeyLe(r[i], r[j])
      {
        if i == 0 {
          assert KeyLe(s[0], s[j - 1]) || j == 1;
        } else {
          assert KeyLe(s[i - 1], s[j - 1]);
        }
      }
    }
  }

  /** Python's `sorted(registers, key=lambda x: (x.get_address(), -x.get_count()))`. */
  function SortRanges(s: seq<AddressRange>): (r: seq<AddressRange>)
    ensures Sorted(r)
  {
    if s == [] then []
    else
      InsertSorted(s[0], SortRanges(s[1..]));
      Insert(s[0], SortRanges(s[1..]))
  }

  /** Sorting rearranges the ranges: the result is a permutation of the input. */
  lemma {:induction false} SortPermutes(s: seq<AddressRange>)
    ensures multiset(SortRanges(s)) == multiset(s)
  {
    if s != [] {
      SortPermutes(s[1..]);
      InsertPermutes(s[0], SortRanges(s[1..]));
      assert s == [s[0]] + s[1..];
    }
  }

  /** Sorting leaves sorted input as it is. */
  lemma {:induction false} SortedFixed(s: seq<AddressRange>)
    requires Sorted(s)
    ensures SortRanges(s) == s
  {
    if s != [] {
      SortedTail(s);
      SortedFixed(s[1..]);
      assert s == [s[0]] + s[1..];
    }
  }

  /** There is one sorted arrangement of a collection of ranges, since ranges with equal keys
      are equal: `SortRanges` is Python's `sorted` with this key, whatever algorithm it uses. */
  lemma {:induction false} SortUnique(s: seq<AddressRange>, t: seq<AddressRange>)
    requires Sorted(t) && multiset(t) == multiset(s)
    ensures SortRanges(s) == t
  {
    SortPermutes(s);
    SortedEqual(SortRanges(s), t);
  }

  lemma {:induction false} SortedEqual(a: seq<AddressRange>, b: seq<AddressRange>)
    requires Sorted(a) && Sorted(b) && multiset(a) == multiset(b)
    ensures a == b
    decreases |a|
  {
    assert |b| == |a| by {
      assert |multiset(a)| == |multiset(b)|;
    }
    if a != [] {
      HeadIsLeast(a, b[0]);
      HeadIsLeast(b, a[0]);
      assert a[0].address == b[0].address && a[0].count == b[0].count;
      DropHead(a);
      DropHead(b);
      SortedTail(a);
      SortedTail(b);
      SortedEqual(a[1..], b[1..]);
      assert a == [a[0]] + a[1..] && b == [b[0]] + b[1..];
    }
  }

  /** The first range of a sorted sequence comes first under the key. */
  lemma HeadIsLeast(s: seq<AddressRange>, x: AddressRange)
    requires Sorted(s) && x in multiset(s)
    ensures KeyLe(s[0], x)
  {
    var i :| 0 <= i < |s| && s[i] == x;
    if i > 0 {
      assert KeyLe(s[0], s[i]);
    }
  }

  lemma DropHead(s: seq<AddressRange>)
    requires s != []
    ensures multiset(s[1..]) == multiset(s) - multiset{s[0]}
  {
    assert s == [s[0]] + s[1..];
  }

  lemma SortedMembers(s: seq<AddressRange>)
    ensures forall r :: r in SortRanges(s) <==> r in s
  {
    var t := SortRanges(s);
    SortPermutes(s);
    forall r
      ensures r in t <==> r in s
    {
      assert r in t <==> multiset(t)[r] > 0;
      assert r in s <==> multiset(s)[r] > 0;
    }
  }

  // ---------------------------------------------------------------------------
  // The sweep

  /** The merge rule: a range that is not contained in the open bucket extends it when it is
      adjacent or overlapping (or holes are allowed) and the grown bucket stays within
      `maxReadSize`. */
  predicate CanExtend(cur: AddressRange, rng: AddressRange, allowHoles: bool, maxReadSize: int) {
    var diff := rng.FirstAddress() - cur.LastAddress();
    var toAdd := rng.LastAddress() - cur.LastAddress();
    (diff <= 1 || allowHoles) && cur.count + toAdd <= maxReadSize
  }

  /** The open bucket grown to end where `rng` ends. */
  function Extended(cur: AddressRange, rng: AddressRange): AddressRange {
    AddressRange(cur.address, cur.count + (rng.LastAddress() - cur.LastAddress()))
  }

  /** One pass of the loop: the buckets it closes and the open bucket after `rng`. */
  function SweepStep(cur: Option<AddressRange>, rng: AddressRange, allowHoles: bool, maxReadSize: int)
    : (seq<AddressRange>, Option<AddressRange>)
  {
    if cur.Some? && Contains(cur.value, rng) then ([], cur)
    else if cur.None? then ([], Some(rng))
    else if CanExtend(cur.value, rng, allowHoles, maxReadSize) then ([], Some(Extended(cur.value, rng)))
    else ([cur.value], Some(rng))
  }

  /** The buckets the loop emits from the sorted ranges `rs` when `cur` is the open bucket. */
  function Sweep(rs: seq<AddressRange>, cur: Option<AddressRange>, allowHoles: bool, maxReadSize: int)
    : seq<AddressRange>
    decreases |rs|
  {
    if rs == [] then
      (if cur.Some? then [cur.value] else [])
    else
      var rng := rs[0];
      if cur.Some? && Contains(cur.value, rng) then
        Sweep(rs[1..], cur, allowHoles, maxReadSize)
      else if cur.None? then
        Sweep(rs[1..], Some(rng), allowHoles, maxReadSize)
      else if CanExtend(cur.value, rng, allowHoles, maxReadSize) then
        Sweep(rs[1..], Some(Extended(cur.value, rng)), allowHoles, maxReadSize)
      else
        [cur.value] + Sweep(rs[1..], Some(rng), allowHoles, maxReadSize)
  }

  /** What `merge_address_ranges(registers, allow_holes, max_read_size)` returns. */
  function Merged(registers: seq<AddressRange>, allowHoles: bool, maxReadSize: int): seq<AddressRange> {
    Sweep(SortRanges(registers), None, allowHoles, maxReadSize)
  }

  /** The imperative merge: one accumulator `cur` sweeps the sorted ranges and closed
      buckets are appended to `buckets`. */
  method MergeAddressRanges(registers: seq<AddressRange>, allowHoles: bool, maxReadSize: int)
    returns (buckets: seq<AddressRange>)
    ensures buckets == Merged(registers, allowHoles, maxReadSize)
  {
    var sorted := SortRanges(registers);
    buckets := [];
    var cur: Option<AddressRange> := None;
    var i := 0;
    while i < |sorted|
      invariant 0 <= i <= |sorted|
      invariant buckets + Sweep(sorted[i..], cur, allowHoles, maxReadSize) == Merged(registers, allowHoles, maxReadSize)
    {
      // a fresh copy: the caller's range is never changed
      var rng := AddressRange(sorted[i].address, sorted[i].count);
      assert rng == sorted[i];
      var closed, next := Absorb(cur, rng, allowHoles, maxReadSize);
      SweepByStep(sorted, i, cur, allowHoles, maxReadSize);
      AppendAssoc(buckets, closed, Sweep(sorted[i + 1..], next, allowHoles, maxReadSize));
      buckets := buckets + closed;
      cur := next;
      i := i + 1;
    }
    assert sorted[|sorted|..] == [];
    if cur.Some? {
      buckets := buckets + [cur.value];
    }
  }

  /** The body of the merge loop for the range `rng`: skip it when the open bucket already
      covers it, open the first bucket with it, grow the open bucket to its end, or close
      the open bucket and open a new one with it. */
  method Absorb(cur: Option<AddressRange>, rng: AddressRange, allowHoles: bool, maxReadSize: int)
    returns (closed: seq<AddressRange>, next: Option<AddressRange>)
    ensures (closed, next) == SweepStep(cur, rng, allowHoles, maxReadSize)
  {
    closed := [];
    next := cur;
    if cur.Some? && rng.FirstAddress() >= cur.value.FirstAddress() && rng.LastAddress() <= cur.value.LastAddress() {
      return;
    }
    if cur.None? {
      next := Some(rng);
    } else {
      var diff := rng.FirstAddress() - cur.value.LastAddress();
      var toAdd := rng.LastAddress() - cur.value.LastAddress();
      if (diff <= 1 || allowHoles) && cur.value.count + toAdd <= maxReadSize {
        next := Some(AddressRange(cur.value.address, cur.value.count + toAdd));
      } else {
        closed := [cur.value];
        next := Some(rng);
      }
    }
  }

  lemma AppendAssoc<T>(a: seq<T>, b: seq<T>, c: seq<T>)
    ensures a + (b + c) == a + b + c
  {
  }

  /** The sweep over `rs[i..]` is one pass of the loop, then the sweep over the rest. */
  lemma SweepByStep(rs: seq<AddressRange>, i: int, cur: Option<AddressRange>, allowHoles: bool, maxReadSize: int)
    requires 0 <= i < |rs|
    ensures var (closed, next) := SweepStep(cur, rs[i], allowHoles, maxReadSize);
      Sweep(rs[i..], cur, allowHoles, maxReadSize) == closed + Sweep(rs[i + 1..], next, allowHoles, maxReadSize)
  {
    assert rs[i..][0] == rs[i] && rs[i..][1..] == rs[i + 1..];
  }

  // ---------------------------------------------------------------------------
  // Properties of the sweep, for an open bucket `cur` and the sorted ranges `rs` still ahead

  /** Every range ahead starts after the open bucket, or at its start and no longer: what
      sorting guarantees about the ranges still to come. */
  predicate Dominated(cur: AddressRange, rs: seq<AddressRange>) {
    forall r :: r in rs ==> r.address > cur.address || (r.address == cur.address && r.count <= cur.count)
  }

  lemma SortedTail(rs: seq<AddressRange>)
    requires |rs| > 0 && Sorted(rs)
    ensures Sorted(rs[1..]) && Dominated(rs[0], rs[1..])
  {
    forall r | r in rs[1..]
      ensures r.address > rs[0].address || (r.address == rs[0].address && r.count <= rs[0].count)
    {
      var j :| 0 <= j < |rs[1..]| && rs[1..][j] == r;
      assert KeyLe(rs[0], rs[j + 1]);
    }
  }

  /** The first bucket emitted is the open bucket, possibly grown; buckets start strictly
      ascending. */
  lemma {:induction false} SweepAscending(rs: seq<AddressRange>, cur: AddressRange, allowHoles: bool, maxReadSize: int)
    requires Sorted(rs) && Dominated(cur, rs)
    ensures var out := Sweep(rs, Some(cur), allowHoles, maxReadSize);
      && |out| > 0
      && out[0].address == cur.address && Contains(out[0], cur)
      && forall i, j :: 0 <= i < j < |out| ==> out[i].address < out[j].address
    decreases |rs|
  {
    if rs != [] {
      var rng := rs[0];
      SortedTail(rs);
      if Contains(cur, rng) {
        SweepAscending(rs[1..], cur, allowHoles, maxReadSize);
      } else if CanExtend(cur, rng, allowHoles, maxReadSize) {
        var next := Extended(cur, rng);
        SweepAscending(rs[1..], next, allowHoles, maxReadSize);
      } else {
        SweepAscending(rs[1..], rng, allowHoles, maxReadSize);
        var tail := Sweep(rs[1..], Some(rng), allowHoles, maxReadSize);
        var out := [cur] + tail;
        assert Sweep(rs, Some(cur), allowHoles, maxReadSize) == out;
        forall i, j | 0 <= i < j < |out|
          ensures out[i].address < out[j].address
        {
          if i > 0 {
            assert out[i] == tail[i - 1] && out[j] == tail[j - 1];
          } else if j > 1 {
            assert tail[0].address < tail[j - 1].address;
          }
        }
      }
    }
  }

  /** Every range ahead, and the open bucket, lies inside some emitted bucket. */
  lemma {:induction false} SweepCovers(rs: seq<AddressRange>, cur: Option<AddressRange>, allowHoles: bool, maxReadSize: int)
    requires Sorted(rs) && (cur.Some? ==> Dominated(cur.value, rs))
    ensures var out := Sweep(rs, cur, allowHoles, maxReadSize);
      && (cur.Some? ==> exists b :: b in out && Contains(b, cur.value))
      && forall r :: r in rs ==> exists b :: b in out && Contains(b, r)
    decreases |rs|
  {
    var out := Sweep(rs, cur, allowHoles, maxReadSize);
    if rs == [] {
      if cur.Some? {
        assert out == [cur.value];
        assert out[0] in out && Contains(out[0], cur.value);
      }
    } else {
      var rng := rs[0];
      SortedTail(rs);
      if cur.Some? && Contains(cur.value, rng) {
        assert out == Sweep(rs[1..], cur, allowHoles, maxReadSize);
        SweepCovers(rs[1..], cur, allowHoles, maxReadSize);
        var b :| b in out && Contains(b, cur.value);
        assert b in out && Contains(b, rng);
        CoversFirst(rs, out);
      } else if cur.None? {
        SweepCovers(rs[1..], Some(rng), allowHoles, maxReadSize);
        CoversFirst(rs, out);
      } else if CanExtend(cur.value, rng, allowHoles, maxReadSize) {
        var next := Extended(cur.value, rng);
        SweepCovers(rs[1..], Some(next), allowHoles, maxReadSize);
        var b :| b in out && Contains(b, next);
        assert b in out && Contains(b, cur.value) && Contains(b, rng);
        CoversFirst(rs, out);
      } else {
        SweepCovers(rs[1..], Some(rng), allowHoles, maxReadSize);
        var tail := Sweep(rs[1..], Some(rng), allowHoles, maxReadSize);
        assert out == [cur.value] + tail;
        assert out[0] in out && Contains(out[0], cur.value);
        forall b | b in tail
          ensures b in out
        {
        }
        CoversFirst(rs, out);
      }
    }
  }

  /** A bucket larger than `maxReadSize` is a range of the pool, never extended. */
  lemma {:induction false} SweepBounded(rs: seq<AddressRange>, cur: Option<AddressRange>, allowHoles: bool, maxReadSize: int,
                                        pool: seq<AddressRange>)
    requires forall r :: r in rs ==> r in pool
    requires cur.Some? ==> cur.value.count <= maxReadSize || cur.value in pool
    ensures forall b :: b in Sweep(rs, cur, allowHoles, maxReadSize) ==> b.count <= maxReadSize || b in pool
    decreases |rs|
  {
    if rs != [] {
      var rng := rs[0];
      assert rng in pool;
      if cur.Some? && Contains(cur.value, rng) {
        SweepBounded(rs[1..], cur, allowHoles, maxReadSize, pool);
      } else if cur.None? {
        SweepBounded(rs[1..], Some(rng), allowHoles, maxReadSize, pool);
      } else if CanExtend(cur.value, rng, allowHoles, maxReadSize) {
        SweepBounded(rs[1..], Some(Extended(cur.value, rng)), allowHoles, maxReadSize, pool);
      } else {
        SweepBounded(rs[1..], Some(rng), allowHoles, maxReadSize, pool);
      }
    }
  }

  /** Without holes, every address of every bucket is requested by some range of the pool. */
  lemma {:induction false} SweepGapless(rs: seq<AddressRange>, cur: Option<AddressRange>, maxReadSize: int,
                                        pool: seq<AddressRange>)
    requires forall r :: r in rs ==> r in pool
    requires cur.Some? ==> Gapless(cur.value, pool)
    ensures forall b :: b in Sweep(rs, cur, false, maxReadSize) ==> Gapless(b, pool)
    decreases |rs|
  {
    if rs != [] {
      var rng := rs[0];
      assert rng in pool;
      assert Gapless(rng, pool) by {
        forall a | rng.FirstAddress() <= a <= rng.LastAddress()
          ensures Requested(pool, a)
        {
        }
      }
      if cur.Some? && Contains(cur.value, rng) {
        SweepGapless(rs[1..], cur, maxReadSize, pool);
      } else if cur.None? {
        SweepGapless(rs[1..], Some(rng), maxReadSize, pool);
      } else if CanExtend(cur.value, rng, false, maxReadSize) {
        var next := Extended(cur.value, rng);
        assert Gapless(next, pool) by {
          forall a | next.FirstAddress() <= a <= next.LastAddress()
            ensures Requested(pool, a)
          {
            if a > cur.value.LastAddress() {
              assert rng.FirstAddress() <= a <= rng.LastAddress();
            }
          }
        }
        SweepGapless(rs[1..], Some(next), maxReadSize, pool);
      } else {
        SweepGapless(rs[1..], Some(rng), maxReadSize, pool);
      }
    }
  }

  lemma CoversFirst(rs: seq<AddressRange>, out: seq<AddressRange>)
    requires |rs| > 0
    requires exists b :: b in out && Contains(b, rs[0])
    requires forall r :: r in rs[1..] ==> exists b :: b in out && Contains(b, r)
    ensures forall r :: r in rs ==> exists b :: b in out && Contains(b, r)
  {
    forall r | r in rs
      ensures exists b :: b in out && Contains(b, r)
    {
      if r != rs[0] {
        assert rs == [rs[0]] + rs[1..];
        assert r in rs[1..];
      }
    }
  }

  /** No more buckets than ranges (counting the open bucket). */
  lemma {:induction false} SweepLength(rs: seq<AddressRange>, cur: Option<AddressRange>, allowHoles: bool, maxReadSize: int)
    ensures |Sweep(rs, cur, allowHoles, maxReadSize)| <= |rs| + (if cur.Some? then 1 else 0)
    decreases |rs|
  {
    if rs != [] {
      var rng := rs[0];
      if cur.Some? && Contains(cur.value, rng) {
        SweepLength(rs[1..], cur, allowHoles, maxReadSize);
      } else if cur.None? {
        SweepLength(rs[1..], Some(rng), allowHoles, maxReadSize);
      } else if CanExtend(cur.value, rng, allowHoles, maxReadSize) {
        SweepLength(rs[1..], Some(Extended(cur.value, rng)), allowHoles, maxReadSize);
      } else {
        SweepLength(rs[1..], Some(rng), allowHoles, maxReadSize);
      }
    }
  }

  // ---------------------------------------------------------------------------
  // Properties of the merge

  /** Coverage: every requested range is read in full by one bucket. */
  lemma MergeCovers(registers: seq<AddressRange>, allowHoles: bool, maxReadSize: int)
    ensures forall r :: r in registers ==> exists b :: b in Merged(registers, allowHoles, maxReadSize) && Contains(b, r)
  {
    SortedMembers(registers);
    SweepCovers(SortRanges(registers), None, allowHoles, maxReadSize);
  }

  /** Size bound: a bucket exceeds `maxReadSize` only when it is one requested range on its own. */
  lemma MergeBounded(registers: seq<AddressRange>, allowHoles: bool, maxReadSize: int)
    ensures forall b :: b in Merged(registers, allowHoles, maxReadSize) ==> b.count <= maxReadSize || b in registers
  {
    SortedMembers(registers);
    SweepBounded(SortRanges(registers), None, allowHoles, maxReadSize, registers);
  }

  /** Bucket start addresses are strictly ascending. */
  lemma MergeAscending(registers: seq<AddressRange>, allowHoles: bool, maxReadSize: int)
    ensures var out := Merged(registers, allowHoles, maxReadSize);
      forall i, j :: 0 <= i < j < |out| ==> out[i].address < out[j].address
  {
    var rs := SortRanges(registers);
    if rs != [] {
      SortedTail(rs);
      SweepAscending(rs[1..], rs[0], allowHoles, maxReadSize);
    }
  }

  /** Without holes, a bucket reads only requested addresses. */
  lemma MergeWithoutHoles(registers: seq<AddressRange>, maxReadSize: int)
    ensures forall b :: b in Merged(registers, false, maxReadSize) ==> Gapless(b, registers)
  {
    SortedMembers(registers);
    SweepGapless(SortRanges(registers), None, maxReadSize, registers);
  }

  /** There are never more buckets than requests, and no request gives no bucket. */
  lemma MergeShrinks(registers: seq<AddressRange>, allowHoles: bool, maxReadSize: int)
    ensures |Merged(registers, allowHoles, maxReadSize)| <= |registers|
    ensures Merged(registers, allowHoles, maxReadSize) == [] <==> registers == []
  {
    var rs := SortRanges(registers);
    SortPermutes(registers);
    assert |rs| == |registers| by {
      assert |multiset(rs)| == |multiset(registers)|;
    }
    SweepLength(rs, None, allowHoles, maxReadSize);
    if rs != [] {
      SortedTail(rs);
      SweepAscending(rs[1..], rs[0], allowHoles, maxReadSize);
    }
  }

  // ---------------------------------------------------------------------------
  // Idempotence

  /** `next` is a bucket the merge closed after `b`: it ends later, so `b` does not contain
      it, and the gap rule or the size rule refuses to join them. */
  predicate Separated(b: AddressRange, next: AddressRange, allowHoles: bool, maxReadSize: int) {
    next.LastAddress() > b.LastAddress() && !CanExtend(b, next, allowHoles, maxReadSize)
  }

  /** Every bucket is separated from the one after it. */
  predicate Chain(bs: seq<AddressRange>, allowHoles: bool, maxReadSize: int) {
    forall i :: 0 <= i < |bs| - 1 ==> Separated(bs[i], bs[i + 1], allowHoles, maxReadSize)
  }

  /** The buckets of a sweep form a chain: the range that opened a bucket was refused by the
      bucket before it, and the new bucket only grows past that range afterwards, so it is
      refused all the more. */
  lemma {:induction false} SweepChain(rs: seq<AddressRange>, cur: AddressRange, allowHoles: bool, maxReadSize: int)
    requires Sorted(rs) && Dominated(cur, rs)
    ensures Chain(Sweep(rs, Some(cur), allowHoles, maxReadSize), allowHoles, maxReadSize)
    decreases |rs|
  {
    if rs != [] {
      var rng := rs[0];
      SortedTail(rs);
      if Contains(cur, rng) {
        SweepChain(rs[1..], cur, allowHoles, maxReadSize);
      } else if CanExtend(cur, rng, allowHoles, maxReadSize) {
        SweepChain(rs[1..], Extended(cur, rng), allowHoles, maxReadSize);
      } else {
        SweepChain(rs[1..], rng, allowHoles, maxReadSize);
        SweepAscending(rs[1..], rng, allowHoles, maxReadSize);
        var tail := Sweep(rs[1..], Some(rng), allowHoles, maxReadSize);
        var out := [cur] + tail;
        assert Sweep(rs, Some(cur), allowHoles, maxReadSize) == out;
        assert Separated(cur, tail[0], allowHoles, maxReadSize);
        forall i | 0 <= i < |out| - 1
          ensures Separated(out[i], out[i + 1], allowHoles, maxReadSize)
        {
          if i > 0 {
            assert out[i] == tail[i - 1] && out[i + 1] == tail[i];
          }
        }
      }
    }
  }

  /** Sweeping a chain, with its first bucket open, gives the chain back. */
  lemma {:induction false} SweepOfChain(bs: seq<AddressRange>, cur: AddressRange, allowHoles: bool, maxReadSize: int)
    requires Chain([cur] + bs, allowHoles, maxReadSize)
    ensures Sweep(bs, Some(cur), allowHoles, maxReadSize) == [cur] + bs
    decreases |bs|
  {
    if bs != [] {
      var c := [cur] + bs;
      assert Separated(c[0], c[1], allowHoles, maxReadSize);
      assert Chain([bs[0]] + bs[1..], allowHoles, maxReadSize) by {
        forall i | 0 <= i < |bs| - 1
          ensures Separated(bs[i], bs[i + 1], allowHoles, maxReadSize)
        {
          assert c[i + 1] == bs[i] && c[i + 2] == bs[i + 1];
        }
        assert [bs[0]] + bs[1..] == bs;
      }
      SweepOfChain(bs[1..], bs[0], allowHoles, maxReadSize);
      assert [bs[0]] + bs[1..] == bs;
    }
  }

  /** Merging the buckets again with the same parameters gives the same buckets. */
  lemma MergeIdempotent(registers: seq<AddressRange>, allowHoles: bool, maxReadSize: int)
    ensures Merged(Merged(registers, allowHoles, maxReadSize), allowHoles, maxReadSize)
         == Merged(registers, allowHoles, maxReadSize)
  {
    var out := Merged(registers, allowHoles, maxReadSize);
    var rs := SortRanges(registers);
    if rs != [] {
      SortedTail(rs);
      SweepChain(rs[1..], rs[0], allowHoles, maxReadSize);
      MergeAscending(registers, allowHoles, maxReadSize);
      assert Sorted(out) by {
        forall i, j | 0 <= i < j < |out|
          ensures KeyLe(out[i], out[j])
        {
          assert out[i].address < out[j].address;
        }
      }
      SortedFixed(out);
      SweepAscending(rs[1..], rs[0], allowHoles, maxReadSize);
      assert [out[0]] + out[1..] == out;
      SweepOfChain(out[1..], out[0], allowHoles, maxReadSize);
    }
  }
}
