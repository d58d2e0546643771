/** A fixed-capacity circular buffer that overwrites its oldest element when
    full. The physical state is a backing array of `cap` slots, the index
    `start` of the oldest element and the number `count` of stored elements;
    the logical view (index 0 = oldest) is given by `Contents`. */
module Ring {

  datatype Error = IndexOutOfRange

  /** Outcome of an indexed access: the element, or the out-of-range error. */
  datatype Result<+R> = Ok(value: R) | Err(error: Error)

  datatype RingBuffer<T> = RingBuffer(buf: seq<T>, cap: nat, start: nat, count: nat)

  /** The class invariant. `start` is a slot index (`start < cap`), except
      that a buffer of capacity 0 has no slots and keeps `start == 0`. The
      oldest element only moves away from slot 0 once the buffer has been
      full, so a buffer that is not full starts at 0. */
  predicate Valid<T>(rb: RingBuffer<T>)
  {
    && |rb.buf| == rb.cap
    && rb.count <= rb.cap
    && (rb.start == 0 || rb.start < rb.cap)
    && (rb.count < rb.cap ==> rb.start == 0)
  }

  /** `b` rotated left `k` times: each step moves the first element to the end. */
  function RotateLeft<T>(b: seq<T>, k: nat): (r: seq<T>)
    ensures |r| == |b|
    decreases k
  {
    if k == 0 || |b| == 0 then b else RotateLeft(b[1..] + [b[0]], k - 1)
  }

  /** The logical, oldest-first contents: the backing array rotated so that
      slot `start` comes first, cut to the stored elements. */
  function Contents<T>(rb: RingBuffer<T>): seq<T>
    requires Valid(rb)
  {
    RotateLeft(rb.buf, rb.start)[..rb.count]
  }

  /** Element `i` of a left rotation by `k` is element `(k + i) % |b|` of `b`. */
  lemma {:induction false} RotateLeftAt<T>(b: seq<T>, k: nat, i: nat)
    requires k <= |b| && i < |b|
    ensures RotateLeft(b, k)[i] == b[(k + i) % |b|]
    decreases k
  {
    var n := |b|;
    if k == 0 {
      Wrap(i, n);
    } else {
      var b' := b[1..] + [b[0]];
      RotateLeftAt(b', k - 1, i);
      var a := k - 1 + i;
      Wrap(a, n);
      Wrap(a % n + 1, n);
      Wrap(a + 1, n);
      assert b'[a % n] == b[(a % n + 1) % n];
    }
  }

  /** What one push does to a logical sequence held in a buffer of capacity `cap`. */
  function Pushed<T>(s: seq<T>, v: T, cap: nat): seq<T>
    requires 1 <= cap && |s| <= cap
  {
    if |s| < cap then s + [v] else s[1..] + [v]
  }

  /** The last `n` elements of `s` (all of `s` when it is shorter). */
  function LastN<T>(s: seq<T>, n: nat): seq<T>
  {
    if |s| <= n then s else s[|s| - n..]
  }

  /** A valid logical index `i` lives in physical slot `(start + i) % cap`. */
  lemma ContentsAt<T>(rb: RingBuffer<T>, i: nat)
    requires Valid(rb) && i < rb.count
    ensures Contents(rb)[i] == rb.buf[(rb.start + i) % rb.cap]
  {
    RotateLeftAt(rb.buf, rb.start, i);
  }

  /** Distinct logical indices live in distinct physical slots. */
  lemma SlotsDistinct<T>(rb: RingBuffer<T>, i: nat, j: nat)
    requires Valid(rb) && i < rb.count && j < rb.count && i != j
    ensures (rb.start + i) % rb.cap != (rb.start + j) % rb.cap
  {
    Wrap(rb.start + i, rb.cap);
    Wrap(rb.start + j, rb.cap);
  }

  /** Constructor: an empty buffer whose `capacity` slots hold `fill`, the
      value-initialised element. */
  function New<T>(capacity: nat, fill: T): (rb: RingBuffer<T>)
    ensures Valid(rb) && rb.cap == capacity
    ensures Contents(rb) == []
  {
    RingBuffer(seq(capacity, _ => fill), capacity, 0, 0)
  }

  /** Number of stored elements. */
  function Size<T>(rb: RingBuffer<T>): (n: nat)
    requires Valid(rb)
    ensures n == |Contents(rb)|
    ensures n <= rb.cap
  {
    rb.count
  }

  /** The fixed capacity. */
  function Capacity<T>(rb: RingBuffer<T>): nat
  {
    rb.cap
  }

  /** Appends `v`; when full, overwrites the oldest element and advances `start`. */
  function PushBack<T>(rb: RingBuffer<T>, v: T): (r: RingBuffer<T>)
    requires Valid(rb) && 1 <= rb.cap
    ensures Valid(r) && r.cap == rb.cap
    ensures r.start < r.cap
    ensures |Contents(rb)| < rb.cap ==> Contents(r) == Contents(rb) + [v]
    ensures |Contents(rb)| == rb.cap ==> Contents(r) == Contents(rb)[1..] + [v]
  {
    if rb.count < rb.cap then
      var r := rb.(buf := rb.buf[rb.count := v], count := rb.count + 1);
      assert Contents(r) == Contents(rb) + [v] by {
        assert Contents(rb) == rb.buf[..rb.count];
        assert Contents(r) == r.buf[..r.count];
      }
      r
    else
      var r := rb.(buf := rb.buf[rb.start := v], start := (rb.start + 1) % rb.cap);
      PushFullContents(rb, v, r);
      r
  }

  /** Reduction of an index below twice the modulus. */
  lemma Wrap(a: nat, n: nat)
    requires 0 < n && a < 2 * n
    ensures a % n == if a < n then a else a - n
  {
    if a >= n {
      assert a == n + (a - n);
    }
  }

  lemma PushFullAt<T>(rb: RingBuffer<T>, v: T, r: RingBuffer<T>, i: nat)
    requires Valid(rb) && 1 <= rb.cap && rb.count == rb.cap
    requires r == rb.(buf := rb.buf[rb.start := v], start := (rb.start + 1) % rb.cap)
    requires Valid(r) && i < rb.cap
    ensures Contents(r)[i] == (Contents(rb)[1..] + [v])[i]
  {
    var n := rb.cap;
    Wrap(rb.start + 1, n);
    ContentsAt(r, i);
    Wrap(r.start + i, n);
    if i < n - 1 {
      ContentsAt(rb, i + 1);
      Wrap(rb.start + i + 1, n);
    }
  }

  lemma PushFullContents<T>(rb: RingBuffer<T>, v: T, r: RingBuffer<T>)
    requires Valid(rb) && 1 <= rb.cap && rb.count == rb.cap
    requires r == rb.(buf := rb.buf[rb.start := v], start := (rb.start + 1) % rb.cap)
    ensures Valid(r)
    ensures Contents(r) == Contents(rb)[1..] + [v]
  {
    Wrap(rb.start + 1, rb.cap);
    forall i | 0 <= i < rb.cap
      ensures Contents(r)[i] == (Contents(rb)[1..] + [v])[i]
    {
      PushFullAt(rb, v, r, i);
    }
  }

  /** Resets to empty without touching the storage. */
  function Clear<T>(rb: RingBuffer<T>): (r: RingBuffer<T>)
    requires Valid(rb)
    ensures Valid(r) && r.cap == rb.cap
    ensures Contents(r) == []
  {
    rb.(start := 0, count := 0)
  }

  /** Read access in logical order (both `operator[]` overloads). */
  function Get<T>(rb: RingBuffer<T>, index: nat): (r: Result<T>)
    requires Valid(rb)
    ensures r.Ok? <==> index < |Contents(rb)|
    ensures r.Ok? ==> r.value == Contents(rb)[index]
  {
    if index >= rb.count then Err(IndexOutOfRange)
    else
      ContentsAt(rb, index);
      Ok(rb.buf[(rb.start + index) % rb.cap])
  }

  /** Write access through the non-const `operator[]`. */
  function Update<T>(rb: RingBuffer<T>, index: nat, v: T): (r: Result<RingBuffer<T>>)
    requires Valid(rb)
    ensures r.Ok? <==> index < |Contents(rb)|
    ensures r.Ok? ==> Valid(r.value) && r.value.cap == rb.cap
    ensures r.Ok? ==> Contents(r.value) == Contents(rb)[index := v]
  {
    if index >= rb.count then Err(IndexOutOfRange)
    else
      var r := rb.(buf := rb.buf[(rb.start + index) % rb.cap := v]);
      UpdateContents(rb, index, v, r);
      Ok(r)
  }

  lemma UpdateContents<T>(rb: RingBuffer<T>, index: nat, v: T, r: RingBuffer<T>)
    requires Valid(rb) && index < rb.count
    requires r == rb.(buf := rb.buf[(rb.start + index) % rb.cap := v])
    ensures Valid(r)
    ensures Contents(r) == Contents(rb)[index := v]
  {
    forall i | 0 <= i < rb.count
      ensures Contents(r)[i] == Contents(rb)[index := v][i]
    {
      ContentsAt(r, i);
      ContentsAt(rb, i);
      if i != index {
        SlotsDistinct(rb, i, index);
      }
    }
  }

  /** `getLinearized`: a copy of the contents, oldest first. */
  method Linearize<T>(rb: RingBuffer<T>) returns (out: seq<T>)
    requires Valid(rb)
    ensures |out| == Size(rb)
    ensures forall i :: 0 <= i < |out| ==> Get(rb, i) == Ok(out[i])
    ensures out == Contents(rb)
  {
    out := [];
    var i := 0;
    while i < rb.count
      invariant i <= rb.count
      invariant out == Contents(rb)[..i]
    {
      var x := Get(rb, i);
      out := out + [x.value];
      i := i + 1;
    }
  }

  /** `PushBack` on the logical view is `Pushed`. */
  lemma PushBackIsPushed<T>(rb: RingBuffer<T>, v: T)
    requires Valid(rb) && 1 <= rb.cap
    ensures Contents(PushBack(rb, v)) == Pushed(Contents(rb), v, rb.cap)
  {
  }

  /** Pushes every element of `vs` in order. */
  function PushAll<T>(rb: RingBuffer<T>, vs: seq<T>): (r: RingBuffer<T>)
    requires Valid(rb) && 1 <= rb.cap
    ensures Valid(r) && r.cap == rb.cap
    decreases |vs|
  {
    if vs == [] then rb
    else PushBack(PushAll(rb, vs[..|vs| - 1]), vs[|vs| - 1])
  }

  /** One push on the logical view keeps the last `cap` elements. */
  lemma PushedKeepsLast<T>(s: seq<T>, v: T, cap: nat)
    requires 1 <= cap
    ensures |LastN(s, cap)| <= cap
    ensures Pushed(LastN(s, cap), v, cap) == LastN(s + [v], cap)
  {
  }

  /** Any sequence of pushes leaves the last `cap` values of the old contents
      followed by the pushed values, oldest first. */
  lemma {:induction false} PushAllKeepsLast<T>(rb: RingBuffer<T>, vs: seq<T>)
    requires Valid(rb) && 1 <= rb.cap
    ensures Contents(PushAll(rb, vs)) == LastN(Contents(rb) + vs, rb.cap)
    decreases |vs|
  {
    var c := Contents(rb);
    if vs == [] {
      assert c + vs == c;
    } else {
      var init := vs[..|vs| - 1];
      var v := vs[|vs| - 1];
      var r0 := PushAll(rb, init);
      assert PushAll(rb, vs) == PushBack(r0, v);
      PushAllKeepsLast(rb, init);
      PushBackIsPushed(r0, v);
      PushedKeepsLast(c + init, v, rb.cap);
      assert c + init + [v] == c + vs by {
        assert init + [v] == vs;
      }
    }
  }

  /** After n pushes into a fresh buffer, it holds the last min(n, capacity)
      pushed values, oldest first. */
  lemma PushAllFromEmpty<T>(capacity: nat, fill: T, vs: seq<T>)
    requires 1 <= capacity
    ensures |Contents(PushAll(New(capacity, fill), vs))| == (if |vs| < capacity then |vs| else capacity)
    ensures Contents(PushAll(New(capacity, fill), vs)) == vs[|vs| - (if |vs| < capacity then |vs| else capacity)..]
  {
    var e := New(capacity, fill);
    PushAllKeepsLast(e, vs);
    assert Contents(e) + vs == vs;
    assert Contents(PushAll(e, vs)) == LastN(vs, capacity);
  }
}
