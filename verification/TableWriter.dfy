/** Writing a set of tables to a file (`ext/flex/tables.c`). */
module TableWriter {
  import opened TableData

  const MAGIC := 0xF13C57B1

  // ---- the format ----

  /** A string of characters other than NUL. */
  ghost predicate TextOk(s: seq<Byte>) {
    forall i :: 0 <= i < |s| ==> s[i] != 0
  }

  function Zeros(n: nat): (z: seq<Byte>)
    ensures |z| == n && forall i :: 0 <= i < n ==> z[i] == 0
  {
    if n == 0 then [] else Zeros(n - 1) + [0]
  }

  function Padded(bs: seq<Byte>): (p: seq<Byte>)
    ensures Aligned(|p|) && bs <= p && |p| == |bs| + Pad(|bs|)
  {
    bs + Zeros(Pad(|bs|))
  }

  /** yytbl_hdr: the header of a set. */
  datatype Header = Header(magic: int, hsize: int, ssize: int, flags: int, version: seq<Byte>, name: seq<Byte>)

  /** yytbl_hdr_init. */
  function HdrInit(version: seq<Byte>, name: seq<Byte>): (h: Header)
    ensures h.hsize % 8 == 0
  {
    var n := 14 + |version| + 1 + |name| + 1;
    Header(MAGIC, n + Pad(n), 0, 0, version, name)
  }

  function Start(h: Header, ssize: int): (bs: seq<Byte>)
    ensures |bs| == 14
  {
    Bytes(h.magic, 4) + Bytes(h.hsize, 4) + Bytes(ssize, 4) + Bytes(h.flags, 2)
  }

  function HeaderBytes(h: Header, ssize: int): (bs: seq<Byte>)
    ensures Aligned(|bs|) && |bs| == 16 + |h.version| + |h.name| + Pad(16 + |h.version| + |h.name|)
  {
    Padded(Start(h, ssize) + h.version + [0] + h.name + [0])
  }

  function ElementBytes(data: seq<int>, w: int): (bs: seq<Byte>)
    requires IsWidth(w)
    ensures |bs| == |data| * w
  {
    if data == [] then [] else ElementBytes(data[..|data| - 1], w) + Bytes(data[|data| - 1], w)
  }

  function TableHead(t: Table): (bs: seq<Byte>)
    ensures |bs| == 12
  {
    Bytes(t.id, 2) + Bytes(t.flags, 2) + Bytes(t.hilen, 4) + Bytes(t.lolen, 4)
  }

  function TableBytes(t: Table): (bs: seq<Byte>)
    ensures Aligned(|bs|) && |bs| >= 12
  {
    Padded(TableHead(t) + ElementBytes(t.data, Width(t.flags)))
  }

  function TablesBytes(ts: seq<Table>): seq<Byte> {
    if ts == [] then [] else TablesBytes(ts[..|ts| - 1]) + TableBytes(ts[|ts| - 1])
  }

  /** The size that the header of a written set states: 0 as long as it has no table. */
  function StatedSize(h: Header, ts: seq<Table>): int {
    if ts == [] then h.ssize else |HeaderBytes(h, 0)| + |TablesBytes(ts)|
  }

  /** A whole set. */
  function SetBytes(h: Header, ts: seq<Table>): seq<Byte> {
    HeaderBytes(h, StatedSize(h, ts)) + TablesBytes(ts)
  }

  predicate Aligned(n: int) {
    n % 8 == 0
  }

  lemma AlignedSum(a: int, b: int)
    requires Aligned(a) && Aligned(b)
    ensures Aligned(a + b)
  {
  }

  lemma {:induction false} TablesAreAligned(ts: seq<Table>)
    ensures Aligned(|TablesBytes(ts)|)
  {
    hide TableBytes, Aligned;
    if ts == [] {
      ZeroIsAligned();
    } else {
      TablesAreAligned(ts[..|ts| - 1]);
      TableIsAligned(ts[|ts| - 1]);
      AlignedSum(|TablesBytes(ts[..|ts| - 1])|, |TableBytes(ts[|ts| - 1])|);
    }
  }

  lemma ZeroIsAligned()
    ensures Aligned(0)
  {
  }

  lemma TableIsAligned(t: Table)
    ensures Aligned(|TableBytes(t)|)
  {
  }

  // ---- the writer ----

  /** Bytes written into a file at pos. */
  function Overwritten(data: seq<Byte>, pos: nat, bs: seq<Byte>): seq<Byte>
    requires pos <= |data|
  {
    data[..pos] + bs + if pos + |bs| <= |data| then data[pos + |bs|..] else []
  }

  class Writer {
    /** The file and the position in it. */
    var file: seq<Byte>
    var pos: nat
    /** Counted in 32 bits, and in full. */
    var totalWritten: nat
    ghost var total: nat
    var ssizePos: nat

    constructor (file: seq<Byte>)
      ensures this.file == file && AtEnd() && total == 0
    {
      this.file, pos, totalWritten, total, ssizePos := file, |file|, 0, 0, 0;
    }

    ghost predicate AtEnd()
      reads this
    {
      pos == |file| && totalWritten == Low(total, 4)
    }

    method Fwrite(bs: seq<Byte>)
      requires pos <= |file|
      modifies this`file, this`pos
      ensures file == Overwritten(old(file), old(pos), bs) && pos == old(pos) + |bs| <= |file|
    {
      file := Overwritten(file, pos, bs);
      pos := pos + |bs|;
    }

    method Writen(bs: seq<Byte>) returns (rv: nat)
      requires pos <= |file| && totalWritten == Low(total, 4)
      modifies this`file, this`pos, this`totalWritten, this`total
      ensures file == Overwritten(old(file), old(pos), bs) && pos == old(pos) + |bs| <= |file| && rv == |bs|
      ensures total == old(total) + |bs| && totalWritten == Low(total, 4)
      ensures old(AtEnd()) ==> AtEnd() && file == old(file) + bs
    {
      Fwrite(bs);
      LowSum(total, |bs|);
      totalWritten := Low(totalWritten + |bs|, 4);
      total := total + |bs|;
      rv := |bs|;
    }

    /** Writes an integer of 1, 2 or 4 bytes in network order. */
    method WriteInt(x: int, w: int) returns (rv: nat)
      requires pos <= |file| && totalWritten == Low(total, 4) && IsWidth(w)
      modifies this`file, this`pos, this`totalWritten, this`total
      ensures file == Overwritten(old(file), old(pos), Bytes(x, w)) && pos == old(pos) + w <= |file| && rv == w
      ensures total == old(total) + w && totalWritten == Low(total, 4)
      ensures old(AtEnd()) ==> AtEnd() && file == old(file) + Bytes(x, w)
    {
      rv := Writen(Bytes(x, w));
    }

    /** Writes zeros up to the next multiple of 8 of the bytes written. */
    method WritePad64() returns (bwritten: nat)
      requires AtEnd()
      modifies this`file, this`pos, this`totalWritten, this`total
      ensures AtEnd() && file == old(file) + Zeros(Pad(old(total))) && bwritten == Pad(old(total)) && total == old(total) + bwritten
    {
      var pad := Pad(totalWritten);
      PadOfLow(total);
      bwritten := 0;
      while bwritten < pad
        invariant bwritten <= pad && AtEnd() && file == old(file) + Zeros(bwritten) && total == old(total) + bwritten
      {
        var rv := WriteInt(0, 1);
        bwritten := bwritten + 1;
      }
    }

    /** The file is base and a set of which the header and tables ts have been written. */
    ghost predicate Holds(base: seq<Byte>, h: Header, ts: seq<Table>)
      reads this
    {
      AtEnd() && file == base + SetBytes(h, ts) && ssizePos == |base| + 8 && total == |SetBytes(h, ts)|
    }

    /** Writes the header; gives up if its stated size is not its size. */
    method HdrFwrite(h: Header) returns (ok: bool)
      requires AtEnd() && total == 0
      modifies this
      ensures Holds(old(file), h, []) && (ok <==> h.hsize == |HeaderBytes(h, h.ssize)|)
    {
      hide Bytes, Pad, Low;
      var n0 := WriteInt(h.magic, 4);
      var n1 := WriteInt(h.hsize, 4);
      ssizePos := pos;
      var n2 := WriteInt(h.ssize, 4);
      var n3 := WriteInt(h.flags, 2);
      var n4 := Writen(h.version + [0]);
      var n5 := Writen(h.name + [0]);
      var n6 := WritePad64();
      HeaderIs(old(file), file, h);
      ok := n0 + n1 + n2 + n3 + n4 + n5 + n6 == h.hsize;
    }

    /** Writes the elements of a table, each in the table's width. */
    method WriteElements(t: Table) returns (bwritten: nat)
      requires TableOk(t) && AtEnd()
      modifies this`file, this`pos, this`totalWritten, this`total
      ensures AtEnd() && file == old(file) + ElementBytes(t.data, Width(t.flags)) && total == old(total) + bwritten
      ensures bwritten == |t.data| * Width(t.flags)
    {
      hide Bytes, Low, Width, Fits;
      var w := Width(t.flags);
      var totalLen := TotalLen(t.id, t.hilen, t.lolen);
      bwritten := 0;
      for i := 0 to totalLen
        invariant AtEnd() && file == old(file) + ElementBytes(t.data[..i], w) && bwritten == i * w && total == old(total) + bwritten
      {
        assert t.data[..i + 1][..i] == t.data[..i];
        var rv := WriteInt(t.data[i], w);
        bwritten := bwritten + rv;
      }
      assert t.data[..totalLen] == t.data;
    }

    /** Goes back and states the bytes written so far in the header. */
    method StateSize()
      requires AtEnd() && ssizePos + 4 <= |file|
      modifies this`file, this`pos, this`totalWritten, this`total
      ensures AtEnd() && file == Overwritten(old(file), ssizePos, Bytes(total, 4)) && total == old(total)
    {
      var end := pos;
      BytesAreLow(total, 4);
      pos := ssizePos;
      var rv := WriteInt(totalWritten, 4);
      pos := end;
      // The integer just written is not counted.
      LowSum(total, -4);
      totalWritten := Low(totalWritten - 4, 4);
      total := total - 4;
    }

    /** Writes a table after those already written, and states the new size in the header. */
    method DataFwrite(t: Table, ghost base: seq<Byte>, ghost h: Header, ghost ts: seq<Table>) returns (bwritten: nat)
      requires TableOk(t) && Holds(base, h, ts)
      modifies this
      ensures Holds(base, h, ts + [t]) && bwritten == |TableBytes(t)|
    {
      hide Bytes, Pad, Low, TableOk, Width, SetBytes, Overwritten, Zeros, TableBytes, ElementBytes;
      ghost var file0, total0 := file, total;
      var rv := WriteInt(t.id, 2);
      bwritten := rv;
      rv := WriteInt(t.flags, 2);
      bwritten := bwritten + rv;
      rv := WriteInt(t.hilen, 4);
      bwritten := bwritten + rv;
      rv := WriteInt(t.lolen, 4);
      bwritten := bwritten + rv;
      rv := WriteElements(t);
      bwritten := bwritten + rv;
      SetIsAligned(h, ts);
      PadOfSum(total0, bwritten);
      rv := WritePad64();
      bwritten := bwritten + rv;
      TableIs(file0, file, t);
      SetGrows(base, h, ts, t);
      StateSize();
    }
  }

  lemma LowSum(a: int, b: int)
    ensures Low(Low(a, 4) + b, 4) == Low(a + b, 4)
  {
  }

  lemma PadOfLow(a: int)
    ensures Pad(Low(a, 4)) == Pad(a)
  {
    var q := a / 0x1_0000_0000;
    assert Low(a, 4) == a + 8 * (-0x2000_0000 * q);
    SameRest(a, -0x2000_0000 * q);
  }

  lemma SameRest(a: int, k: int)
    ensures (a + 8 * k) % 8 == a % 8
  {
  }

  lemma HeaderIs(base: seq<Byte>, file: seq<Byte>, h: Header)
    requires file == base + Bytes(h.magic, 4) + Bytes(h.hsize, 4) + Bytes(h.ssize, 4) + Bytes(h.flags, 2)
      + (h.version + [0]) + (h.name + [0]) + Zeros(Pad(16 + |h.version| + |h.name|))
    ensures file == base + SetBytes(h, []) && |SetBytes(h, [])| == |HeaderBytes(h, h.ssize)|
  {
    hide Bytes, Pad, Zeros;
    var z := Zeros(Pad(16 + |h.version| + |h.name|));
    assert SetBytes(h, []) == HeaderBytes(h, h.ssize);
    assert HeaderBytes(h, h.ssize) == Start(h, h.ssize) + h.version + [0] + h.name + [0] + z;
    Flatten(base, Bytes(h.magic, 4), Bytes(h.hsize, 4), Bytes(h.ssize, 4), Bytes(h.flags, 2), h.version, h.name, z);
  }

  lemma Flatten(base: seq<Byte>, a: seq<Byte>, b: seq<Byte>, c: seq<Byte>, d: seq<Byte>, v: seq<Byte>, n: seq<Byte>, z: seq<Byte>)
    ensures base + a + b + c + d + (v + [0]) + (n + [0]) + z == base + ((a + b + c + d) + v + [0] + n + [0] + z)
  {
    assert base + a + b + c + d == base + (a + b + c + d);
    var s := a + b + c + d;
    assert base + s + (v + [0]) == base + (s + v + [0]);
    assert base + (s + v + [0]) + (n + [0]) == base + (s + v + [0] + n + [0]);
  }

  lemma SetIsAligned(h: Header, ts: seq<Table>)
    ensures |SetBytes(h, ts)| % 8 == 0 && |SetBytes(h, ts)| >= 16
  {
    hide Aligned, TablesBytes, HeaderBytes;
    TablesAreAligned(ts);
    AlignedSum(|HeaderBytes(h, StatedSize(h, ts))|, |TablesBytes(ts)|);
    AlignedIs(|SetBytes(h, ts)|);
  }

  lemma AlignedIs(n: int)
    ensures Aligned(n) <==> n % 8 == 0
  {
  }

  lemma PadOfSum(a: int, b: int)
    requires a % 8 == 0
    ensures Pad(a + b) == Pad(b)
  {
  }

  lemma TableIs(file0: seq<Byte>, file: seq<Byte>, t: Table)
    requires file == file0 + Bytes(t.id, 2) + Bytes(t.flags, 2) + Bytes(t.hilen, 4) + Bytes(t.lolen, 4)
      + ElementBytes(t.data, Width(t.flags)) + Zeros(Pad(12 + |t.data| * Width(t.flags)))
    ensures file == file0 + TableBytes(t) && |TableBytes(t)| == 12 + |t.data| * Width(t.flags) + Pad(12 + |t.data| * Width(t.flags))
  {
    hide Bytes, Pad, Zeros, Width;
  }

  lemma OverwriteMiddle(p: seq<Byte>, b: seq<Byte>, c: seq<Byte>, x: seq<Byte>)
    requires |b| == |x|
    ensures |p + b + c| >= |p| + |b| && Overwritten(p + b + c, |p|, x) == p + x + c
  {
    var all := p + b + c;
    assert all[..|p|] == p && all[|p| + |x|..] == c;
  }

  function HeadPart(h: Header): (bs: seq<Byte>)
    ensures |bs| == 8
  {
    Bytes(h.magic, 4) + Bytes(h.hsize, 4)
  }

  function TailPart(h: Header): seq<Byte> {
    Bytes(h.flags, 2) + h.version + [0] + h.name + [0] + Zeros(Pad(16 + |h.version| + |h.name|))
  }

  lemma HeaderSplits(h: Header, s: int)
    ensures HeaderBytes(h, s) == HeadPart(h) + Bytes(s, 4) + TailPart(h)
  {
    hide Bytes, Pad, Zeros;
  }

  lemma Regroup(base: seq<Byte>, a: seq<Byte>, b: seq<Byte>, c: seq<Byte>, d: seq<Byte>, e: seq<Byte>)
    ensures base + (a + b + c + d) + e == (base + a) + b + (c + d + e)
    ensures base + (a + b + c + (d + e)) == (base + a) + b + (c + d + e)
  {
  }

  /** Appending a table to a set, and stating the new size. */
  lemma SetGrows(base: seq<Byte>, h: Header, ts: seq<Table>, t: Table)
    ensures var n := |SetBytes(h, ts)| + |TableBytes(t)|; var file := base + SetBytes(h, ts) + TableBytes(t);
      |base| + 12 <= |file| && n == |SetBytes(h, ts + [t])| && Overwritten(file, |base| + 8, Bytes(n, 4)) == base + SetBytes(h, ts + [t])
  {
    hide HeaderBytes, TableBytes, Bytes, Overwritten, HeadPart, TailPart;
    var n, s := |SetBytes(h, ts)| + |TableBytes(t)|, StatedSize(h, ts);
    var a, c, d, e := HeadPart(h), TailPart(h), TablesBytes(ts), TableBytes(t);
    assert (ts + [t])[..|ts|] == ts;
    HeaderSplits(h, s);
    HeaderSplits(h, n);
    HeaderSplits(h, 0);
    Regroup(base, a, Bytes(s, 4), c, d, e);
    Regroup(base, a, Bytes(n, 4), c, d, e);
    OverwriteMiddle(base + a, Bytes(s, 4), c + d + e, Bytes(n, 4));
  }
}
