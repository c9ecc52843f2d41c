/** Cutting a payload into fragments and putting it together again, in any order of arrival. */
module Reassembly {
  import opened Words
  import opened Bits
  import opened Headers

  // ---------------------------------------------------------------- byte buffers

  /** bytesutil.ExtendSlice: b at length n, keeping what b holds and zero beyond it. */
  function ExtendSlice(b: bytes, n: nat): (r: bytes)
    ensures |r| == n
  {
    if n <= |b| then b[..n] else b + seq(n - |b|, _ => 0)
  }

  /** Go's copy(dst[off:], src). */
  function CopyAt(dst: bytes, off: nat, src: bytes): (r: bytes)
    requires off <= |dst|
    ensures |r| == |dst|
  {
    var n := if |src| <= |dst| - off then |src| else |dst| - off;
    dst[..off] + src[..n] + dst[off + n..]
  }

  lemma CopyAtWritten(dst: bytes, off: nat, src: bytes)
    requires off + |src| <= |dst|
    ensures CopyAt(dst, off, src)[off..off + |src|] == src
  {
  }

  lemma CopyAtKept(dst: bytes, off: nat, src: bytes, lo: nat, hi: nat)
    requires off + |src| <= |dst| && lo <= hi <= |dst| && (hi <= off || off + |src| <= lo)
    ensures CopyAt(dst, off, src)[lo..hi] == dst[lo..hi]
  {
  }

  // ---------------------------------------------------------------- the sending side

  /** A payload to be cut up, with the encoded packet header that precedes it. */
  datatype Source = Source(head: bytes, payload: bytes)

  function NumFragments(size: nat, fs: nat): nat
    requires 0 < fs
  {
    Quot(size, fs) + if Rem(size, fs) != 0 then 1 else 0
  }

  /** The data of fragment id: fs bytes, fewer in the last fragment. */
  function Chunk(payload: bytes, fs: nat, id: nat): (r: bytes)
    ensures |r| <= fs
  {
    var lo := Times(id, fs);
    if lo + fs <= |payload| then payload[lo..lo + fs]
    else if lo <= |payload| then payload[lo..]
    else []
  }

  lemma {:induction false} NumFragmentsBounds(size: nat, fs: nat)
    requires 0 < fs && 0 < size
    ensures 0 < NumFragments(size, fs)
    ensures Times(NumFragments(size, fs) - 1, fs) < size <= Times(NumFragments(size, fs), fs)
  {
    if size > fs {
      NumFragmentsBounds(size - fs, fs);
      var n := NumFragments(size - fs, fs);
      assert NumFragments(size, fs) == n + 1 && Times(n + 1, fs) == Times(n, fs) + fs;
    } else if size == fs {
      assert Quot(0, fs) == 0 && Rem(0, fs) == 0;
      assert NumFragments(size, fs) == 1 && Times(1, fs) == Times(0, fs) + fs;
    } else {
      assert NumFragments(size, fs) == 1 && Times(1, fs) == Times(0, fs) + fs;
    }
  }

  // ---------------------------------------------------------------- the receiving side

  datatype Fragment = Fragment(
    recv: nat, total: nat, buf: bytes, slack: bytes, headerSize: nat, packetSize: nat, marked: seq<u64>)

  /** An entry just Reset: no buffer, nothing marked. */
  const BLANK := Fragment(0, 0, [], [], 0, 0, [0, 0, 0, 0])

  predicate Marked(marked: seq<u64>, id: u8)
    requires |marked| == 4
  {
    Bit(marked[id / 64], id % 64)
  }

  /** MarkReceived on an id that is not marked yet. */
  function Mark(marked: seq<u64>, id: u8): (r: seq<u64>)
    requires |marked| == 4
    ensures |r| == 4
  {
    MarkBound(marked[id / 64], id % 64);
    marked[id / 64 := SetBit(marked[id / 64], id % 64)]
  }

  lemma {:induction false} MarkBound(x: u64, i: nat)
    requires i < 64
    ensures SetBit(x, i) < 0x1_0000_0000_0000_0000
  {
    WordSizes();
    SetBitBound(x, i, 64);
  }

  lemma {:induction false} MarkMarks(marked: seq<u64>, id: u8, j: u8)
    requires |marked| == 4
    ensures Marked(Mark(marked, id), j) <==> j == id || Marked(marked, j)
  {
    if j / 64 == id / 64 {
      SetBitIsOr(marked[id / 64], id % 64, j % 64);
    }
  }

  /** An entry opened for a packet of total fragments, over whatever the pooled buffer held; what that
      held beyond the length needed stays behind it, within its capacity. */
  function Open(total: nat, fs: nat, pooled: bytes): Fragment {
    var size := MAX_PACKET_HEADER_SIZE + Times(total, fs);
    BLANK.(total := total, buf := ExtendSlice(pooled, size), slack := if size < |pooled| then pooled[size..] else [])
  }

  /** Files one fragment: header bytes of fragment 0 end where the data area begins, the size is
      known from the last fragment, and the data goes to its own place. */
  function File(f: Fragment, fs: nat, id: u8, last: u8, phb: bytes, data: bytes): Fragment
    requires |f.marked| == 4 && |phb| <= MAX_PACKET_HEADER_SIZE
    requires MAX_PACKET_HEADER_SIZE + Times(id, fs) <= |f.buf|
  {
    var b1 := if id == 0 then CopyAt(f.buf, MAX_PACKET_HEADER_SIZE - |phb|, phb) else f.buf;
    f.(marked := Mark(f.marked, id),
       headerSize := if id == 0 then |phb| else f.headerSize,
       packetSize := if id == last then Times(last, fs) + |data| else f.packetSize,
       buf := CopyAt(b1, MAX_PACKET_HEADER_SIZE + Times(id, fs), data),
       recv := f.recv + 1)
  }

  /** The packet ends within the capacity of its buffer. A last fragment longer than FragmentSize can
      take it past the length, and then Go's slicing goes on into the slack, or panics behind it. */
  predicate Fits(f: Fragment) {
    MAX_PACKET_HEADER_SIZE + f.packetSize <= |f.buf + f.slack|
  }

  /** The bytes handed on once every fragment has been filed. */
  function Assembled(f: Fragment): bytes
    requires f.headerSize <= MAX_PACKET_HEADER_SIZE && Fits(f)
  {
    (f.buf + f.slack)[MAX_PACKET_HEADER_SIZE - f.headerSize..MAX_PACKET_HEADER_SIZE + f.packetSize]
  }

  // ---------------------------------------------------------------- invariant of an entry

  /** The bytes of fragment id of write w are in place. */
  ghost predicate InPlace(buf: bytes, fs: nat, total: nat, id: nat, w: Source)
    requires 0 < fs
  {
    var off, chunk := MAX_PACKET_HEADER_SIZE + Times(id, fs), Chunk(w.payload, fs, id);
    && 0 < |w.payload| && NumFragments(|w.payload|, fs) == total && id < total
    && off + |chunk| <= |buf| && buf[off..off + |chunk|] == chunk
  }

  ghost predicate HeaderInPlace(buf: bytes, headerSize: nat, head: bytes) {
    && headerSize == |head| <= MAX_PACKET_HEADER_SIZE <= |buf|
    && buf[MAX_PACKET_HEADER_SIZE - headerSize..MAX_PACKET_HEADER_SIZE] == head
  }

  ghost predicate AllInPlace(buf: bytes, fs: nat, total: nat, src: map<u8, Source>)
    requires 0 < fs
  {
    forall id :: id in src ==> InPlace(buf, fs, total, id, src[id])
  }

  ghost predicate MarkedAre(marked: seq<u64>, ids: set<u8>) {
    |marked| == 4 && forall id: u8 :: Marked(marked, id) <==> id in ids
  }

  /** Entry f holds exactly the fragments of src, fragment id coming from write src[id]; recv is
      the number of set bits in marked. */
  ghost predicate Assembles(f: Fragment, fs: nat, src: map<u8, Source>)
    requires 0 < fs
  {
    && 1 <= f.total <= 256 && |f.buf| == MAX_PACKET_HEADER_SIZE + Times(f.total, fs)
    && f.recv == |src|
    && MarkedAre(f.marked, src.Keys)
    && AllInPlace(f.buf, fs, f.total, src)
    && (0 in src ==> HeaderInPlace(f.buf, f.headerSize, src[0].head))
    && (f.total - 1 in src ==> f.packetSize == |src[f.total - 1].payload|)
  }

  lemma {:induction false} OpenAssembles(total: nat, fs: nat, pooled: bytes)
    requires 0 < fs && 1 <= total <= 256
    ensures Assembles(Open(total, fs, pooled), fs, map[])
  {
    forall id: u8 ensures !Marked(BLANK.marked, id) {
      NoHighBits(0, 0, id % 64);
    }
  }

  function HeaderBytes(w: Source, id: nat): bytes {
    if id == 0 then w.head else []
  }

  lemma {:induction false} FileAssembles(f: Fragment, fs: nat, src: map<u8, Source>, id: u8, w: Source)
    requires 0 < fs && Assembles(f, fs, src) && id !in src && id < f.total
    requires 0 < |w.payload| && NumFragments(|w.payload|, fs) == f.total
    requires |HeaderBytes(w, id)| <= MAX_PACKET_HEADER_SIZE
    requires MAX_PACKET_HEADER_SIZE + Times(id, fs) <= |f.buf|
    ensures Assembles(File(f, fs, id, f.total - 1, HeaderBytes(w, id), Chunk(w.payload, fs, id)), fs, src[id := w])
  {
    hide CopyAt, MarkedAre, Mark, Chunk, NumFragments, AllInPlace, Times;
    var phb, data := HeaderBytes(w, id), Chunk(w.payload, fs, id);
    assert |f.marked| == 4 by { MarkedShape(f.marked, src.Keys); }
    var g, off := File(f, fs, id, f.total - 1, phb, data), MAX_PACKET_HEADER_SIZE + Times(id, fs);
    var b1 := if id == 0 then CopyAt(f.buf, MAX_PACKET_HEADER_SIZE - |phb|, phb) else f.buf;
    var b2 := CopyAt(b1, off, data);
    RegionsFiled(f.buf, b1, fs, f.total, src, id, w);
    HeaderFiled(f, w, id, b1, b2, off, data);
    MarksFiled(f.marked, src.Keys, id);
    LastChunk(w.payload, fs);
    PartsAssemble(f, fs, src, id, w, g);
  }

  lemma PartsAssemble(f: Fragment, fs: nat, src: map<u8, Source>, id: u8, w: Source, g: Fragment)
    requires 0 < fs && Assembles(f, fs, src) && id !in src
    requires g.recv == f.recv + 1 && g.total == f.total && |g.buf| == |f.buf|
    requires MarkedAre(g.marked, src.Keys + {id}) && AllInPlace(g.buf, fs, f.total, src[id := w])
    requires id == 0 ==> HeaderInPlace(g.buf, g.headerSize, w.head)
    requires id != 0 ==> g.headerSize == f.headerSize
    requires id != 0 ==> g.buf[..MAX_PACKET_HEADER_SIZE] == f.buf[..MAX_PACKET_HEADER_SIZE]
    requires g.packetSize == if id == f.total - 1 then |w.payload| else f.packetSize
    ensures Assembles(g, fs, src[id := w])
  {
    hide MarkedAre, AllInPlace, HeaderInPlace, Times;
    OneMoreKey(src, id, w);
    if id != 0 && 0 in src {
      HeaderKept(f.buf, g.buf, f.headerSize, src[0].head);
    }
  }

  lemma OneMoreKey(src: map<u8, Source>, id: u8, w: Source)
    requires id !in src
    ensures src[id := w].Keys == src.Keys + {id} && |src[id := w]| == |src| + 1
  {
    assert src[id := w].Keys == src.Keys + {id};
    assert |src[id := w].Keys| == |src.Keys| + 1;
  }

  lemma HeaderKept(buf: bytes, buf': bytes, headerSize: nat, head: bytes)
    requires HeaderInPlace(buf, headerSize, head) && |buf'| == |buf|
    requires buf'[..MAX_PACKET_HEADER_SIZE] == buf[..MAX_PACKET_HEADER_SIZE]
    ensures HeaderInPlace(buf', headerSize, head)
  {
    var lo := MAX_PACKET_HEADER_SIZE - headerSize;
    assert buf[lo..MAX_PACKET_HEADER_SIZE] == buf[..MAX_PACKET_HEADER_SIZE][lo..];
    assert buf'[lo..MAX_PACKET_HEADER_SIZE] == buf'[..MAX_PACKET_HEADER_SIZE][lo..];
  }

  lemma MarkedShape(marked: seq<u64>, ids: set<u8>)
    requires MarkedAre(marked, ids)
    ensures |marked| == 4
  {
  }

  lemma {:induction false} MarksFiled(marked: seq<u64>, ids: set<u8>, id: u8)
    requires MarkedAre(marked, ids)
    ensures MarkedAre(Mark(marked, id), ids + {id})
  {
    forall j: u8 ensures Marked(Mark(marked, id), j) <==> j in ids + {id} {
      MarkMarks(marked, id, j);
    }
  }

  lemma {:induction false} RegionsFiled(
    buf: bytes, b1: bytes, fs: nat, total: nat, src: map<u8, Source>, id: u8, w: Source)
    requires 0 < fs && AllInPlace(buf, fs, total, src) && id !in src && id < total
    requires 0 < |w.payload| && NumFragments(|w.payload|, fs) == total
    requires |HeaderBytes(w, id)| <= MAX_PACKET_HEADER_SIZE
    requires |buf| == MAX_PACKET_HEADER_SIZE + Times(total, fs)
    requires b1 ==
      if id == 0 then CopyAt(buf, MAX_PACKET_HEADER_SIZE - |HeaderBytes(w, id)|, HeaderBytes(w, id)) else buf
    ensures var off, data := MAX_PACKET_HEADER_SIZE + Times(id, fs), Chunk(w.payload, fs, id);
      off + |data| <= |buf| && AllInPlace(CopyAt(b1, off, data), fs, total, src[id := w])
  {
    var off, data := MAX_PACKET_HEADER_SIZE + Times(id, fs), Chunk(w.payload, fs, id);
    TimesMonotone(id, total, fs);
    CopyAtWritten(b1, off, data);
    forall j | j in src ensures InPlace(CopyAt(b1, off, data), fs, total, j, src[j]) {
      OthersKept(buf, b1, fs, total, id, HeaderBytes(w, id), data, j, src[j]);
    }
  }

  lemma {:induction false} HeaderFiled(f: Fragment, w: Source, id: u8, b1: bytes, b2: bytes, off: nat, data: bytes)
    requires |HeaderBytes(w, id)| <= MAX_PACKET_HEADER_SIZE <= off && off + |data| <= |f.buf|
    requires b1 ==
      (if id == 0 then CopyAt(f.buf, MAX_PACKET_HEADER_SIZE - |HeaderBytes(w, id)|, HeaderBytes(w, id)) else f.buf)
    requires b2 == CopyAt(b1, off, data)
    ensures id != 0 ==> b2[..MAX_PACKET_HEADER_SIZE] == f.buf[..MAX_PACKET_HEADER_SIZE]
    ensures id == 0 ==> b2[MAX_PACKET_HEADER_SIZE - |w.head|..MAX_PACKET_HEADER_SIZE] == w.head
  {
    CopyAtKept(b1, off, data, 0, MAX_PACKET_HEADER_SIZE);
    if id == 0 {
      var lo := MAX_PACKET_HEADER_SIZE - |w.head|;
      CopyAtWritten(f.buf, lo, w.head);
      CopyAtKept(b1, off, data, lo, MAX_PACKET_HEADER_SIZE);
    }
  }

  /** Filing fragment id does not disturb fragment j. */
  lemma {:induction false} OthersKept(
    buf: bytes, b1: bytes, fs: nat, total: nat, id: u8, phb: bytes, data: bytes, j: nat, w: Source)
    requires 0 < fs && InPlace(buf, fs, total, j, w) && j != id
    requires |phb| <= MAX_PACKET_HEADER_SIZE <= |buf| && |data| <= fs
    requires MAX_PACKET_HEADER_SIZE + Times(id, fs) + |data| <= |buf|
    requires b1 == if id == 0 then CopyAt(buf, MAX_PACKET_HEADER_SIZE - |phb|, phb) else buf
    ensures InPlace(CopyAt(b1, MAX_PACKET_HEADER_SIZE + Times(id, fs), data), fs, total, j, w)
  {
    var off, lo := MAX_PACKET_HEADER_SIZE + Times(id, fs), MAX_PACKET_HEADER_SIZE + Times(j, fs);
    var hi := lo + |Chunk(w.payload, fs, j)|;
    if id < j {
      TimesMonotone(id, j, fs);
    } else {
      TimesMonotone(j, id, fs);
    }
    if id == 0 {
      CopyAtKept(buf, MAX_PACKET_HEADER_SIZE - |phb|, phb, lo, hi);
    }
    CopyAtKept(b1, off, data, lo, hi);
  }

  lemma {:induction false} LastChunk(payload: bytes, fs: nat)
    requires 0 < fs && 0 < |payload|
    ensures 0 < NumFragments(|payload|, fs)
    ensures var last := NumFragments(|payload|, fs) - 1;
      Times(last, fs) + |Chunk(payload, fs, last)| == |payload|
  {
    NumFragmentsBounds(|payload|, fs);
  }

  // ---------------------------------------------------------------- completion

  /** A set of ids below total that is as large as total holds every id. */
  lemma {:induction false} AllIds(ids: set<u8>, total: nat)
    requires (forall id :: id in ids ==> id < total) && |ids| == total <= 256
    ensures forall id: u8 :: id < total ==> id in ids
  {
    var all := Below(total);
    BelowSize(total);
    assert ids <= all;
    SubsetOfSameSize(ids, all);
  }

  predicate IsBelow(id: u8, total: nat) {
    id < total
  }

  function Below(total: nat): set<u8>
    requires total <= 256
  {
    set id: u8 | IsBelow(id, total)
  }

  lemma {:induction false} BelowSize(total: nat)
    requires total <= 256
    ensures |Below(total)| == total
  {
    if total > 0 {
      BelowSize(total - 1);
      assert Below(total) == Below(total - 1) + {total - 1};
    }
  }

  lemma {:induction false} SubsetOfSameSize(a: set<u8>, b: set<u8>)
    requires a <= b && |a| == |b|
    ensures a == b
  {
    if x :| x in b && x !in a {
      assert a <= b - {x};
      SubsetSize(a, b - {x});
    }
  }

  lemma {:induction false} SubsetSize(a: set<u8>, b: set<u8>)
    requires a <= b
    ensures |a| <= |b|
  {
    if x :| x in a {
      SubsetSize(a - {x}, b - {x});
    }
  }

  lemma {:induction false} CompleteIds(f: Fragment, fs: nat, src: map<u8, Source>)
    requires 0 < fs && Assembles(f, fs, src) && f.recv == f.total
    ensures forall id: u8 :: id < f.total ==> id in src
    ensures f.headerSize <= MAX_PACKET_HEADER_SIZE && MAX_PACKET_HEADER_SIZE + f.packetSize <= |f.buf|
    ensures f.headerSize == |src[0].head|
    ensures f.packetSize == |src[f.total - 1].payload| <= Times(f.total, fs)
  {
    forall id | id in src.Keys ensures id < f.total {
      assert InPlace(f.buf, fs, f.total, id, src[id]);
    }
    AllIds(src.Keys, f.total);
    var last: u8 := f.total - 1;
    assert 0 in src && last in src;
    assert InPlace(f.buf, fs, f.total, last, src[last]);
    NumFragmentsBounds(|src[last].payload|, fs);
  }

  /** When recv reaches total, the bytes handed on are the header of fragment 0 and a body. */
  lemma {:induction false} CompleteSplits(f: Fragment, fs: nat, src: map<u8, Source>)
    requires 0 < fs && Assembles(f, fs, src) && f.recv == f.total
    ensures 0 in src && f.headerSize <= MAX_PACKET_HEADER_SIZE && MAX_PACKET_HEADER_SIZE + f.packetSize <= |f.buf|
    ensures Assembled(f) == src[0].head + Body(f)
  {
    hide NumFragments, MarkedAre, AllInPlace, Chunk, Times;
    CompleteIds(f, fs, src);
    var lo, hi := MAX_PACKET_HEADER_SIZE - f.headerSize, MAX_PACKET_HEADER_SIZE + f.packetSize;
    assert f.buf[lo..MAX_PACKET_HEADER_SIZE] == src[0].head;
    assert Assembled(f) == f.buf[lo..hi];
  }

  function Body(f: Fragment): bytes
    requires MAX_PACKET_HEADER_SIZE + f.packetSize <= |f.buf|
  {
    f.buf[MAX_PACKET_HEADER_SIZE..MAX_PACKET_HEADER_SIZE + f.packetSize]
  }

  /** If all the fragments came from writes of one payload, the body is that payload. */
  lemma {:induction false} CompletePayload(f: Fragment, fs: nat, src: map<u8, Source>, p: bytes)
    requires 0 < fs && Assembles(f, fs, src) && f.recv == f.total
    requires forall id :: id in src ==> src[id].payload == p
    requires MAX_PACKET_HEADER_SIZE + f.packetSize <= |f.buf|
    ensures Body(f) == p
  {
    hide NumFragments, MarkedAre, HeaderInPlace, Chunk, Times;
    CompleteIds(f, fs, src);
    forall id: u8 | id < f.total ensures InPlace(f.buf, fs, f.total, id, Source([], p)) {
      assert InPlace(f.buf, fs, f.total, id, src[id]);
    }
    PrefixInPlace(f.buf, fs, f.total, Source([], p), f.total);
  }

  function Least(x: nat, y: nat): nat {
    if x <= y then x else y
  }

  lemma {:induction false} PrefixInPlace(buf: bytes, fs: nat, total: nat, w: Source, n: nat)
    requires 0 < fs && n <= total <= 256
    requires forall id: u8 :: id < total ==> InPlace(buf, fs, total, id, w)
    ensures var m := Least(Times(n, fs), |w.payload|);
      n == 0 || (MAX_PACKET_HEADER_SIZE + m <= |buf| && buf[MAX_PACKET_HEADER_SIZE..MAX_PACKET_HEADER_SIZE + m] ==
        w.payload[..m])
  {
    if n > 0 {
      PrefixInPlace(buf, fs, total, w, n - 1);
      var id: u8 := n - 1;
      assert InPlace(buf, fs, total, id, w);
      assert Times(n, fs) == Times(id, fs) + fs;
      var p, lo := w.payload, Times(id, fs);
      var hi := Least(lo + fs, |p|);
      if lo <= |p| {
        Glue(buf, p, MAX_PACKET_HEADER_SIZE, lo, hi);
      }
    }
  }

  lemma Glue(buf: bytes, p: bytes, off: nat, lo: nat, hi: nat)
    requires lo <= hi <= |p| && off + hi <= |buf|
    requires lo == 0 || buf[off..off + lo] == p[..lo]
    requires buf[off + lo..off + hi] == p[lo..hi]
    ensures buf[off..off + hi] == p[..hi]
  {
    assert buf[off..off + hi] == buf[off..off + lo] + buf[off + lo..off + hi];
    assert p[..hi] == p[..lo] + p[lo..hi];
  }
}
