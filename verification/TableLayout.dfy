/** The bytes of a table file, as `ext/flex/tables_shared.h` lays them out, and what the loader makes of its numbers. */
module TableLayout {
  import opened TableData
  import opened TableWriter
  import opened TableReader

  /** Numbers are written with the most significant byte first. */
  lemma BytesAreInOrder(x: int)
    ensures Bytes(x, 1) == [x % 0x100] && Bytes(x, 2) == [x / 0x100 % 0x100, x % 0x100]
    ensures Bytes(x, 4) == Bytes(x / 0x1_0000, 2) + Bytes(x, 2)
  {
    assert x / 0x1_0000 / 0x100 == x / 0x100_0000;
  }

  /** And so they are read. */
  lemma NumbersAreInOrder(a: seq<Byte>, b: seq<Byte>, x: Byte, y: Byte)
    requires |a| == |b| == 2
    ensures Number([x]) == x as int && Number([x, y]) == 0x100 * x as int + y as int
    ensures Number(a + b) == 0x1_0000 * Number(a) + Number(b)
  {
  }

  /** Conversion to w bytes leaves the number of that size that differs by a multiple of the number of values. */
  lemma WrapIsResidue(x: int)
    ensures -0x80 <= Wrap(x, 1) < 0x80 && (x - Wrap(x, 1)) % 0x100 == 0
    ensures -0x8000 <= Wrap(x, 2) < 0x8000 && (x - Wrap(x, 2)) % 0x1_0000 == 0
    ensures -0x8000_0000 <= Wrap(x, 4) < 0x8000_0000 && (x - Wrap(x, 4)) % 0x1_0000_0000 == 0
  {
  }

  lemma SizesAre()
    ensures Size(1) == 0x100 && Size(2) == 0x1_0000 && Size(4) == 0x1_0000_0000
    ensures forall x :: Fits(x, 1) <==> -0x80 <= x < 0x80
    ensures forall x :: Fits(x, 2) <==> -0x8000 <= x < 0x8000
    ensures forall x :: Fits(x, 4) <==> -0x8000_0000 <= x < 0x8000_0000
  {
  }

  /** One of the three width flags says how wide the elements are. */
  lemma WidthIs(flags: nat)
    ensures flags % 8 == 1 ==> Width(flags) == 1
    ensures flags % 8 == 2 ==> Width(flags) == 2
    ensures flags % 8 == 4 ==> Width(flags) == 4
  {
    assert flags == flags / 8 * 8 + flags % 8;
  }

  /** The elements of a table with rows of lolen, twice as many if they are transitions. */
  lemma TotalLenIs(id: int, hilen: nat, lolen: nat)
    requires hilen * lolen * 2 < 0x8000_0000 && lolen * 2 < 0x8000_0000
    ensures TotalLen(id, hilen, lolen) == (if hilen > 0 then hilen * lolen else lolen) * (if id == 0x0B then 2 else 1)
  {
    hide Wrap;
    SmallFits(lolen);
    SmallFits(lolen * hilen);
    var m := if hilen > 0 then lolen * hilen else lolen;
    SmallFits(m * 2);
  }

  lemma SmallFits(x: nat)
    ensures x < 0x8000_0000 ==> Wrap(x, 4) == x
  {
  }

  /** x is small for a width if it is of that width with either sign, or the one number that has no absolute value. */
  lemma SmallIs(x: int)
    ensures Small(x, 1) <==> -0x80 < x < 0x80 || x == -0x8000_0000
    ensures Small(x, 2) <==> -0x8000 < x < 0x8000 || x == -0x8000_0000
    ensures Small(x, 4) <==> -0x8000_0000 <= x < 0x8000_0000
  {
  }

  /** A table begins with its id, flags and lengths. */
  lemma TableBegins(t: Table)
    ensures TableBytes(t)[..2] == Bytes(t.id, 2) && TableBytes(t)[2..4] == Bytes(t.flags, 2)
    ensures TableBytes(t)[4..8] == Bytes(t.hilen, 4) && TableBytes(t)[8..12] == Bytes(t.lolen, 4)
  {
    hide Bytes, ElementBytes;
    assert TableHead(t) <= TableBytes(t);
  }

  lemma {:induction false} ElementAt(data: seq<int>, w: int, i: nat)
    requires IsWidth(w) && i < |data|
    ensures 0 <= i * w <= i * w + w <= |ElementBytes(data, w)| && ElementBytes(data, w)[i * w..i * w + w] == Bytes(data[i], w)
  {
    hide Bytes;
    var n := |data| - 1;
    assert |ElementBytes(data, w)| == n * w + w;
    if i < n {
      ElementAt(data[..n], w, i);
      assert ElementBytes(data[..n], w) <= ElementBytes(data, w);
    }
  }

  /** Element i of a table comes i widths behind them, and what follows the last one is zeros up to a multiple of 8. */
  lemma ElementsFollow(t: Table, i: nat)
    requires i < |t.data|
    ensures var w, p := Width(t.flags), 12 + i * Width(t.flags);
      0 <= p <= p + w <= |TableBytes(t)| && TableBytes(t)[p..p + w] == Bytes(t.data[i], w)
  {
    hide Bytes, ElementBytes, Width, TableHead;
    var w := Width(t.flags);
    ElementAt(t.data, w, i);
    var a, b := TableHead(t), ElementBytes(t.data, w);
    assert (a + b)[12 + i * w..12 + i * w + w] == b[i * w..i * w + w];
    assert a + b <= TableBytes(t);
  }

  lemma TableEnds(t: Table, i: nat)
    requires 12 + |t.data| * Width(t.flags) <= i < |TableBytes(t)|
    ensures |TableBytes(t)| % 8 == 0 && |TableBytes(t)| < 12 + |t.data| * Width(t.flags) + 8 && TableBytes(t)[i] == 0
  {
    hide ElementBytes, Width, TableHead;
  }

  /** A header holds the magic number, its own size, the size of the set, no flags, version and name. */
  lemma HeaderBegins(version: seq<Byte>, name: seq<Byte>, ssize: int)
    ensures var bs, n := HeaderBytes(HdrInit(version, name), ssize), 15 + |version|;
      && bs[..4] == Bytes(0xF13C57B1, 4) && bs[4..8] == Bytes(|bs|, 4) && bs[8..12] == Bytes(ssize, 4) && bs[12..14] == Bytes(0, 2)
      && bs[14..14 + |version|] == version && bs[14 + |version|] == 0 && bs[n..n + |name|] == name && bs[n + |name|] == 0
  {
    hide Bytes, Pad, Zeros;
    var h := HdrInit(version, name);
    var bs := HeaderBytes(h, ssize);
    assert Start(h, ssize) + version + [0] + name + [0] <= bs;
    assert Start(h, ssize)[..4] == Bytes(h.magic, 4) && Start(h, ssize)[4..8] == Bytes(h.hsize, 4);
    assert Start(h, ssize)[8..12] == Bytes(ssize, 4) && Start(h, ssize)[12..14] == Bytes(0, 2);
  }

  /** The scanner has a table if it is in its map, and with the element size of the first entry for it. */
  lemma {:induction false} LookupIs(dmap: seq<Entry>, id: int)
    ensures (forall e :: e in dmap ==> e.id != id) ==> Lookup(dmap, id) == 0
    ensures forall i :: 0 <= i < |dmap| && dmap[i].id == id && (forall j :: 0 <= j < i ==> dmap[j].id != id) ==> Lookup(dmap, id) == dmap[i].size
  {
    if dmap != [] {
      LookupIs(dmap[1..], id);
      forall i | 0 < i < |dmap| && dmap[i].id == id && forall j :: 0 <= j < i ==> dmap[j].id != id
        ensures Lookup(dmap, id) == dmap[i].size
      {
        assert dmap[1..][i - 1] == dmap[i];
        assert forall j :: 0 <= j < i - 1 ==> dmap[1..][j] == dmap[j + 1];
        assert dmap[0].id != id;
      }
    }
  }

  /** A header that does not begin with the magic number is refused, and so is one whose size is out of range. */
  lemma HeaderIsRefused(file: seq<Byte>, pos: nat)
    ensures pos + 4 <= |file| && file[pos..pos + 4] != [0xF1, 0x3C, 0x57, 0xB1] ==> ReadHeader(file, pos) == Fatal
    ensures pos + 14 <= |file| && file[pos..pos + 4] == [0xF1, 0x3C, 0x57, 0xB1] ==>
      var n := Number(file[pos + 4..pos + 8]); !(16 <= n <= 1024) ==> ReadHeader(file, pos) == Fatal
    ensures pos + 4 > |file| || (file[pos..pos + 4] == [0xF1, 0x3C, 0x57, 0xB1] && pos + 14 > |file|) ==> ReadHeader(file, pos) == Eof
  {
    if pos + 4 <= |file| {
      MagicIs(file[pos..pos + 4]);
    }
  }

  /** A table that the file does not hold the head of is the end of the file; one that the scanner does not have is refused. */
  lemma TableIsRefused(file: seq<Byte>, pos: nat, bread: nat, dmap: seq<Entry>)
    ensures pos + 12 > |file| ==> ReadTable(file, pos, bread, dmap) == Eof
    ensures pos + 12 <= |file| && (forall e :: e in dmap ==> e.id != Number(file[pos..pos + 2])) ==> ReadTable(file, pos, bread, dmap) == Fatal
  {
    if pos + 12 <= |file| {
      LookupIs(dmap, Number(file[pos..pos + 2]));
    }
  }

  lemma MagicIs(bs: seq<Byte>)
    requires |bs| == 4
    ensures Number(bs) == MAGIC <==> bs == [0xF1, 0x3C, 0x57, 0xB1]
  {
  }

  /** What has been loaded last for an id stays, each element that fits the scanner's type as it was, any other as the type wraps it. */
  lemma ConvertedHas(data: seq<int>, flags: int, size: int, i: nat)
    requires i < |data| && IsWidth(size)
    ensures |Converted(data, flags, size)| == |data|
    ensures Converted(data, flags, size)[i] == if Pointers(flags) && !Structs(flags) then data[i] else Wrap(data[i], size)
    ensures -(Size(size) / 2) <= data[i] < Size(size) / 2 ==> Converted(data, flags, size)[i] == data[i]
  {
  }
}
