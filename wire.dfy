/** Wire codec of the SLOW peripheral: the fixed 32-byte packet header,
    its little-endian integer packing and its (de)serialisation into a
    byte buffer. */
module Wire {

  const HDR_SIZE: nat := 32
  const DATA_MAX: nat := 1440

  // Flag bits, kept in the low five bits of the `sf` word.
  const FLAG_C: bv32 := 0x10    // connect
  const FLAG_R: bv32 := 0x08    // revive
  const FLAG_ACK: bv32 := 0x04  // acknowledgement
  const FLAG_AR: bv32 := 0x02   // accept / reject
  const FLAG_MASK: bv32 := 0x1F

  /** A 128-bit session identifier, sixteen bytes. */
  type Sid = b: seq<bv8> | |b| == 16 witness seq(16, _ => 0)

  /** The all-zero identifier a CONNECT carries before the peer assigns one. */
  function NilSid(): (s: Sid)
    ensures forall i :: 0 <= i < 16 ==> s[i] == 0
  {
    seq(16, _ => 0)
  }

  /** Byte-wise comparison of two identifiers (memcmp over sixteen bytes). */
  predicate SidEqual(a: Sid, b: Sid)
    ensures SidEqual(a, b) <==> forall i :: 0 <= i < 16 ==> a[i] == b[i]
  {
    a == b
  }

  /** The packet header: `sf` packs a 27-bit time-to-live above five flag bits. */
  datatype Header = Header(sid: Sid, sf: bv32, seqNo: bv32, ack: bv32, wnd: bv16, fid: bv8, fo: bv8)

  /** The header the default constructor builds: nil identifier, all fields zero. */
  function EmptyHeader(): (r: Header)
    ensures forall i :: 0 <= i < 16 ==> r.sid[i] == 0
    ensures Flags(r.sf) == 0 && Ttl(r.sf) == 0
    ensures r.seqNo == 0 && r.ack == 0 && r.wnd == 0 && r.fid == 0 && r.fo == 0
  {
    Header(NilSid(), 0, 0, 0, 0, 0, 0)
  }

  function Flags(sf: bv32): bv32 { sf & FLAG_MASK }

  function Ttl(sf: bv32): bv32 { sf >> 5 }

  predicate HasFlag(sf: bv32, flag: bv32) { sf & flag != 0 }

  /** `(sf & ~0x1F) | flags`: replaces the five flag bits, keeps the TTL. */
  function WithFlags(sf: bv32, flags: bv32): (r: bv32)
    requires flags & !FLAG_MASK == 0
    ensures Flags(r) == flags && Ttl(r) == Ttl(sf)
  {
    (sf & !FLAG_MASK) | flags
  }

  // ---------------------------------------------------------------------
  // Little-endian byte lists

  /** The `n` low-order bytes of `v`, least significant first. */
  function LeBytes32(v: bv32, n: nat): (r: seq<bv8>)
    ensures |r| == n
    decreases n
  {
    if n == 0 then [] else [(v & 0xFF) as bv8] + LeBytes32(v >> 8, n - 1)
  }

  function LeBytes16(v: bv16, n: nat): (r: seq<bv8>)
    ensures |r| == n
    decreases n
  {
    if n == 0 then [] else [(v & 0xFF) as bv8] + LeBytes16(v >> 8, n - 1)
  }

  /** Byte `x` moved to byte position `k` of a word (bit `8k`). */
  function ByteAt32(x: bv8, k: nat): bv32
    requires k < 4
  {
    if k == 0 then x as bv32
    else if k == 1 then (x as bv32) << 8
    else if k == 2 then (x as bv32) << 16
    else (x as bv32) << 24
  }

  function ByteAt16(x: bv8, k: nat): bv16
    requires k < 2
  {
    if k == 0 then x as bv16 else (x as bv16) << 8
  }

  /** The word assembled from the first `n` bytes of `b`, byte `k` at bit `8k`. */
  function FromLe32(b: seq<bv8>, n: nat): bv32
    requires n <= |b| && n <= 4
  {
    if n == 0 then 0 else FromLe32(b, n - 1) | ByteAt32(b[n - 1], n - 1)
  }

  function FromLe16(b: seq<bv8>, n: nat): bv16
    requires n <= |b| && n <= 2
  {
    if n == 0 then 0 else FromLe16(b, n - 1) | ByteAt16(b[n - 1], n - 1)
  }

  /** The shift `p[i] << (i * 8)` of unpack32 places byte `i` at byte position `i`. */
  function Shl32(x: bv8, k: nat): (r: bv32)
    requires k < 4
    ensures r == ByteAt32(x, k)
  {
    ShiftIsByteAt32(x, k);
    (x as bv32) << (k * 8)
  }

  function Shl16(x: bv8, k: nat): (r: bv16)
    requires k < 2
    ensures r == ByteAt16(x, k)
  {
    ShiftIsByteAt16(x, k);
    (x as bv16) << (k * 8)
  }

  lemma {:induction false} ShiftIsByteAt32(x: bv8, k: nat)
    requires k < 4
    ensures (x as bv32) << (k * 8) == ByteAt32(x, k)
  {
    if k == 0 {
    } else if k == 1 {
    } else if k == 2 {
    } else {
    }
  }

  lemma ShiftIsByteAt16(x: bv8, k: nat)
    requires k < 2
    ensures (x as bv16) << (k * 8) == ByteAt16(x, k)
  {
  }

  /** Byte `i` of pack32's output is `(v >> 8i) & 0xFF`: little-endian order. */
  lemma LeBytes32Spelled(v: bv32)
    ensures LeBytes32(v, 4) == [(v & 0xFF) as bv8, ((v >> 8) & 0xFF) as bv8,
                                ((v >> 16) & 0xFF) as bv8, ((v >> 24) & 0xFF) as bv8]
  {
  }

  lemma LeBytes16Spelled(v: bv16)
    ensures LeBytes16(v, 2) == [(v & 0xFF) as bv8, ((v >> 8) & 0xFF) as bv8]
  {
  }

  /** unpack32 reads byte `i` as bits `8i..8i+7` of the word. */
  lemma {:induction false} FromLe32Spelled(b: seq<bv8>)
    requires |b| == 4
    ensures FromLe32(b, 4)
         == (((b[0] as bv32) | ((b[1] as bv32) << 8)) | ((b[2] as bv32) << 16)) | ((b[3] as bv32) << 24)
  {
    assert FromLe32(b, 1) == b[0] as bv32;
    assert FromLe32(b, 2) == (b[0] as bv32) | ((b[1] as bv32) << 8);
    assert FromLe32(b, 3) == ((b[0] as bv32) | ((b[1] as bv32) << 8)) | ((b[2] as bv32) << 16);
  }

  lemma {:induction false} FromLe16Spelled(b: seq<bv8>)
    requires |b| == 2
    ensures FromLe16(b, 2) == (b[0] as bv16) | ((b[1] as bv16) << 8)
  {
    assert FromLe16(b, 1) == b[0] as bv16;
  }

  // Bit-level facts: splitting a word into bytes and joining them back.

  lemma JoinSplit32(v: bv32)
    ensures ((((v & 0xFF) as bv8 as bv32) | ((((v >> 8) & 0xFF) as bv8 as bv32) << 8))
              | ((((v >> 16) & 0xFF) as bv8 as bv32) << 16))
              | ((((v >> 24) & 0xFF) as bv8 as bv32) << 24) == v
  {
  }

  lemma SplitJoin32(x0: bv8, x1: bv8, x2: bv8, x3: bv8)
    ensures var v := (((x0 as bv32) | ((x1 as bv32) << 8)) | ((x2 as bv32) << 16)) | ((x3 as bv32) << 24);
      && (v & 0xFF) as bv8 == x0 && ((v >> 8) & 0xFF) as bv8 == x1
      && ((v >> 16) & 0xFF) as bv8 == x2 && ((v >> 24) & 0xFF) as bv8 == x3
  {
  }

  lemma JoinSplit16(v: bv16)
    ensures ((v & 0xFF) as bv8 as bv16) | ((((v >> 8) & 0xFF) as bv8 as bv16) << 8) == v
  {
  }

  lemma SplitJoin16(x0: bv8, x1: bv8)
    ensures var v := (x0 as bv16) | ((x1 as bv16) << 8);
      (v & 0xFF) as bv8 == x0 && ((v >> 8) & 0xFF) as bv8 == x1
  {
  }

  /** unpack32(pack32(v)) == v */
  lemma Unpack32Pack32(v: bv32)
    ensures FromLe32(LeBytes32(v, 4), 4) == v
  {
    LeBytes32Spelled(v);
    FromLe32Spelled(LeBytes32(v, 4));
    JoinSplit32(v);
  }

  /** pack32(unpack32(b)) == b for every four bytes */
  lemma Pack32Unpack32(b: seq<bv8>)
    requires |b| == 4
    ensures LeBytes32(FromLe32(b, 4), 4) == b
  {
    FromLe32Spelled(b);
    LeBytes32Spelled(FromLe32(b, 4));
    SplitJoin32(b[0], b[1], b[2], b[3]);
  }

  /** unpack16(pack16(v)) == v */
  lemma Unpack16Pack16(v: bv16)
    ensures FromLe16(LeBytes16(v, 2), 2) == v
  {
    LeBytes16Spelled(v);
    FromLe16Spelled(LeBytes16(v, 2));
    JoinSplit16(v);
  }

  /** pack16(unpack16(b)) == b for every two bytes */
  lemma Pack16Unpack16(b: seq<bv8>)
    requires |b| == 2
    ensures LeBytes16(FromLe16(b, 2), 2) == b
  {
    FromLe16Spelled(b);
    LeBytes16Spelled(FromLe16(b, 2));
    SplitJoin16(b[0], b[1]);
  }

  // ---------------------------------------------------------------------
  // pack / unpack on a caller's buffer

  /** Two equally long buffers that agree on the slices around `[off, off+n)` agree cell by cell there. */
  lemma SlicesUnchanged(a: seq<bv8>, b: seq<bv8>, off: nat, n: nat)
    requires |a| == |b| && off + n <= |a|
    requires b[..off] == a[..off] && b[off + n..] == a[off + n..]
    ensures forall k :: 0 <= k < |a| && !(off <= k < off + n) ==> b[k] == a[k]
  {
    forall k | 0 <= k < |a| && !(off <= k < off + n)
      ensures b[k] == a[k]
    {
      if k < off {
        assert b[k] == b[..off][k];
      } else {
        assert b[k] == b[off + n..][k - off - n];
      }
    }
  }

  /** A run of cells that match `bytes` one by one is the slice `bytes`. */
  lemma SliceOfElements(a: seq<bv8>, off: nat, bytes: seq<bv8>)
    requires off + |bytes| <= |a|
    requires forall k :: 0 <= k < |bytes| ==> a[off + k] == bytes[k]
    ensures a[off..off + |bytes|] == bytes
  {
  }

  /** What is left of `v` after pack32 has shifted out `i` bytes. */
  function Rest32(v: bv32, i: nat): bv32
    requires i <= 4
  {
    if i == 0 then v else if i == 1 then v >> 8 else if i == 2 then v >> 16
    else if i == 3 then v >> 24 else 0
  }

  /** One step of pack32: the low byte of what is left is the next byte out. */
  lemma {:induction false} Rest32Byte(v: bv32, i: nat)
    requires i < 4
    ensures (Rest32(v, i) & 0xFF) as bv8 == LeBytes32(v, 4)[i]
  {
    LeBytes32Spelled(v);
    if i == 0 {
    } else if i == 1 {
    } else if i == 2 {
    } else {
    }
  }

  /** Shifting what is left down by a byte leaves what the next step starts from. */
  lemma {:induction false} Rest32Shift(v: bv32, i: nat)
    requires i < 4
    ensures Rest32(v, i) >> 8 == Rest32(v, i + 1)
  {
    if i == 0 {
    } else if i == 1 {
    } else if i == 2 {
    } else {
    }
  }

  /** pack32: writes `v` little-endian into `p[off..off+4]`, shifting `v` down a byte at a time. */
  method Pack32(v: bv32, p: array<bv8>, off: nat)
    requires off + 4 <= p.Length
    modifies p
    ensures p[off..off + 4] == LeBytes32(v, 4)
    ensures p[..off] == old(p[..off]) && p[off + 4..] == old(p[off + 4..])
    ensures forall k :: 0 <= k < p.Length && !(off <= k < off + 4) ==> p[k] == old(p[k])
  {
    ghost var bytes := LeBytes32(v, 4);
    var w := v;
    var i := 0;
    while i < 4
      invariant 0 <= i <= 4
      invariant w == Rest32(v, i)
      invariant forall k :: 0 <= k < i ==> p[off + k] == bytes[k]
      invariant p[..off] == old(p[..off]) && p[off + 4..] == old(p[off + 4..])
    {
      Rest32Byte(v, i);
      Rest32Shift(v, i);
      p[off + i] := (w & 0xFF) as bv8;
      w := w >> 8;
      i := i + 1;
    }
    SlicesUnchanged(old(p[..]), p[..], off, 4);
    SliceOfElements(p[..], off, bytes);
  }

  /** unpack32: ORs byte `i` of `p[off..off+4]` in at bit `8i`. */
  method Unpack32(p: array<bv8>, off: nat) returns (v: bv32)
    requires off + 4 <= p.Length
    ensures v == FromLe32(p[off..off + 4], 4)
  {
    v := 0;
    var i := 0;
    while i < 4
      invariant 0 <= i <= 4
      invariant v == FromLe32(p[off..off + 4], i)
    {
      v := v | Shl32(p[off + i], i);
      i := i + 1;
    }
  }

  method Pack16(v: bv16, p: array<bv8>, off: nat)
    requires off + 2 <= p.Length
    modifies p
    ensures p[off..off + 2] == LeBytes16(v, 2)
    ensures p[..off] == old(p[..off]) && p[off + 2..] == old(p[off + 2..])
    ensures forall k :: 0 <= k < p.Length && !(off <= k < off + 2) ==> p[k] == old(p[k])
  {
    var w := v;
    var i := 0;
    while i < 2
      invariant 0 <= i <= 2
      invariant LeBytes16(w, 2 - i) == LeBytes16(v, 2)[i..]
      invariant forall k :: 0 <= k < i ==> p[off + k] == LeBytes16(v, 2)[k]
      invariant p[..off] == old(p[..off]) && p[off + 2..] == old(p[off + 2..])
    {
      p[off + i] := (w & 0xFF) as bv8;
      w := w >> 8;
      i := i + 1;
    }
    SlicesUnchanged(old(p[..]), p[..], off, 2);
    SliceOfElements(p[..], off, LeBytes16(v, 2));
  }

  method Unpack16(p: array<bv8>, off: nat) returns (v: bv16)
    requires off + 2 <= p.Length
    ensures v == FromLe16(p[off..off + 2], 2)
  {
    v := 0;
    var i := 0;
    while i < 2
      invariant 0 <= i <= 2
      invariant v == FromLe16(p[off..off + 2], i)
    {
      v := v | Shl16(p[off + i], i);
      i := i + 1;
    }
  }

  // ---------------------------------------------------------------------
  // Header encoding

  /** The 32 header bytes: sid 0-15, sf 16-19, seq 20-23, ack 24-27, wnd 28-29, fid 30, fo 31. */
  function Encode(h: Header): (r: seq<bv8>)
    ensures |r| == HDR_SIZE
  {
    h.sid + LeBytes32(h.sf, 4) + LeBytes32(h.seqNo, 4) + LeBytes32(h.ack, 4)
      + LeBytes16(h.wnd, 2) + [h.fid, h.fo]
  }

  /** The header read from the first 32 bytes of `b`. */
  function Decode(b: seq<bv8>): (h: Header)
    requires |b| >= HDR_SIZE
  {
    Header(b[..16], FromLe32(b[16..20], 4), FromLe32(b[20..24], 4), FromLe32(b[24..28], 4),
           FromLe16(b[28..30], 2), b[30], b[31])
  }

  /** Each field sits at its fixed offset, packed little-endian. */
  lemma EncodeLayout(h: Header)
    ensures Encode(h)[..16] == h.sid
    ensures Encode(h)[16..20] == LeBytes32(h.sf, 4)
    ensures Encode(h)[20..24] == LeBytes32(h.seqNo, 4)
    ensures Encode(h)[24..28] == LeBytes32(h.ack, 4)
    ensures Encode(h)[28..30] == LeBytes16(h.wnd, 2)
    ensures Encode(h)[30] == h.fid && Encode(h)[31] == h.fo
  {
    var a := h.sid + LeBytes32(h.sf, 4);
    var b := a + LeBytes32(h.seqNo, 4);
    var c := b + LeBytes32(h.ack, 4);
    var d := c + LeBytes16(h.wnd, 2);
    var e := Encode(h);
    assert e == d + [h.fid, h.fo];
    assert e[..30] == d;
    assert e[..28] == c by { assert e[..28] == d[..28]; }
    assert e[..24] == b by { assert e[..24] == c[..24]; }
    assert e[..20] == a by { assert e[..20] == b[..20]; }
  }

  /** The default header goes on the wire as thirty-two zero bytes. */
  lemma {:induction false} EmptyHeaderEncoding()
    ensures Encode(EmptyHeader()) == seq(HDR_SIZE, _ => 0)
  {
    var h := EmptyHeader();
    EncodeLayout(h);
    LeBytes32Spelled(0);
    LeBytes16Spelled(0);
  }

  /** deserialize(serialize(h)) == h */
  lemma DecodeEncode(h: Header)
    ensures Decode(Encode(h)) == h
  {
    EncodeLayout(h);
    Unpack32Pack32(h.sf);
    Unpack32Pack32(h.seqNo);
    Unpack32Pack32(h.ack);
    Unpack16Pack16(h.wnd);
  }

  /** serialize(deserialize(b)) == b for every 32-byte buffer. */
  lemma EncodeDecode(b: seq<bv8>)
    requires |b| == HDR_SIZE
    ensures Encode(Decode(b)) == b
  {
    var h := Decode(b);
    Pack32Unpack32(b[16..20]);
    Pack32Unpack32(b[20..24]);
    Pack32Unpack32(b[24..28]);
    Pack16Unpack16(b[28..30]);
    calc {
      Encode(h);
      h.sid + LeBytes32(h.sf, 4) + LeBytes32(h.seqNo, 4) + LeBytes32(h.ack, 4)
        + LeBytes16(h.wnd, 2) + [h.fid, h.fo];
      b[..16] + b[16..20] + b[20..24] + b[24..28] + b[28..30] + [b[30], b[31]];
      { HeaderSlices(b); }
      b;
    }
  }

  /** A 32-byte buffer is the concatenation of its six field ranges. */
  lemma HeaderSlices(b: seq<bv8>)
    requires |b| == HDR_SIZE
    ensures b == b[..16] + b[16..20] + b[20..24] + b[24..28] + b[28..30] + [b[30], b[31]]
  {
  }

  /** Only the first 32 bytes of a buffer decide its header. */
  lemma DecodePrefix(a: seq<bv8>, b: seq<bv8>)
    requires |a| >= HDR_SIZE && |b| >= HDR_SIZE && a[..HDR_SIZE] == b[..HDR_SIZE]
    ensures Decode(a) == Decode(b)
  {
    assert a[..16] == a[..HDR_SIZE][..16] == b[..HDR_SIZE][..16] == b[..16];
    assert a[16..20] == a[..HDR_SIZE][16..20] == b[..HDR_SIZE][16..20] == b[16..20];
    assert a[20..24] == a[..HDR_SIZE][20..24] == b[..HDR_SIZE][20..24] == b[20..24];
    assert a[24..28] == a[..HDR_SIZE][24..28] == b[..HDR_SIZE][24..28] == b[24..28];
    assert a[28..30] == a[..HDR_SIZE][28..30] == b[..HDR_SIZE][28..30] == b[28..30];
    assert a[30] == a[..HDR_SIZE][30] == b[..HDR_SIZE][30] == b[30];
    assert a[31] == a[..HDR_SIZE][31] == b[..HDR_SIZE][31] == b[31];
  }

  /** Two headers with the same bytes are the same header. */
  lemma EncodeInjective(h1: Header, h2: Header)
    requires Encode(h1) == Encode(h2)
    ensures h1 == h2
  {
    DecodeEncode(h1);
    DecodeEncode(h2);
  }

  /** serialize: fills `buf[0..32]` with the header bytes, leaves the rest alone. */
  method Serialize(h: Header, buf: array<bv8>)
    requires buf.Length >= HDR_SIZE
    modifies buf
    ensures buf[..HDR_SIZE] == Encode(h)
    ensures buf[HDR_SIZE..] == old(buf[HDR_SIZE..])
  {
    forall i | 0 <= i < 16 {
      buf[i] := h.sid[i];
    }
    assert buf[..16] == h.sid;
    Pack32(h.sf, buf, 16);
    assert buf[..20] == h.sid + LeBytes32(h.sf, 4) by {
      assert buf[..20] == buf[..16] + buf[16..20];
    }
    Pack32(h.seqNo, buf, 20);
    assert buf[..24] == h.sid + LeBytes32(h.sf, 4) + LeBytes32(h.seqNo, 4) by {
      assert buf[..24] == buf[..20] + buf[20..24];
    }
    Pack32(h.ack, buf, 24);
    assert buf[..28] == h.sid + LeBytes32(h.sf, 4) + LeBytes32(h.seqNo, 4) + LeBytes32(h.ack, 4) by {
      assert buf[..28] == buf[..24] + buf[24..28];
    }
    Pack16(h.wnd, buf, 28);
    assert buf[..30] == h.sid + LeBytes32(h.sf, 4) + LeBytes32(h.seqNo, 4) + LeBytes32(h.ack, 4)
                        + LeBytes16(h.wnd, 2) by {
      assert buf[..30] == buf[..28] + buf[28..30];
    }
    ghost var before := buf[..];
    buf[30] := h.fid;
    buf[31] := h.fo;
    assert buf[..HDR_SIZE] == buf[..30] + [h.fid, h.fo];
    assert buf[HDR_SIZE..] == before[HDR_SIZE..];
  }

  /** deserialize: reads a header from `buf[0..32]`. */
  method Deserialize(buf: array<bv8>) returns (h: Header)
    requires buf.Length >= HDR_SIZE
    ensures h == Decode(buf[..])
  {
    var sf := Unpack32(buf, 16);
    var sq := Unpack32(buf, 20);
    var ak := Unpack32(buf, 24);
    var wnd := Unpack16(buf, 28);
    h := Header(buf[..16], sf, sq, ak, wnd, buf[30], buf[31]);
  }
}
