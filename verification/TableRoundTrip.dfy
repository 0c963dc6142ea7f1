/** What is written to a table file is what the loader of the generated scanner reads. */
module TableRoundTrip {
  import opened TableData
  import opened TableWriter
  import opened TableReader

  /** The file has bs at pos. */
  ghost predicate Has(file: seq<Byte>, pos: nat, bs: seq<Byte>) {
    pos + |bs| <= |file| && forall i :: 0 <= i < |bs| ==> file[pos + i] == bs[i]
  }

  lemma HasParts(file: seq<Byte>, pos: nat, a: seq<Byte>, b: seq<Byte>)
    requires Has(file, pos, a + b)
    ensures Has(file, pos, a) && Has(file, pos + |a|, b)
  {
    forall i | 0 <= i < |a|
      ensures file[pos + i] == a[i]
    {
      assert (a + b)[i] == a[i];
    }
    forall i | 0 <= i < |b|
      ensures file[pos + |a| + i] == b[i]
    {
      assert (a + b)[|a| + i] == b[i] && file[pos + (|a| + i)] == (a + b)[|a| + i];
    }
  }

  lemma ChunkIs(file: seq<Byte>, pos: nat, bs: seq<Byte>)
    requires Has(file, pos, bs)
    ensures Chunk(file, pos, |bs|) == bs
  {
  }

  /** The elements written are the elements read, converted to their width. */
  lemma {:induction false} ElementsAre(file: seq<Byte>, pos: nat, data: seq<int>, w: nat)
    requires IsWidth(w) && Has(file, pos, ElementBytes(data, w)) && forall x :: x in data ==> Fits(x, w)
    ensures pos + |data| * w <= |file| && ReadElements(file, pos, w, |data|) == data
  {
    hide Bytes, Number, Fits, ReadElements, Has, Wrap, Chunk;
    if data == [] {
      HasLength(file, pos, []);
      NoneAreRead(file, pos, w);
    } else {
      var n := |data| - 1;
      var end := pos + n * w;
      assert pos + |data| * w == end + w && |ElementBytes(data[..n], w)| == n * w;
      HasParts(file, pos, ElementBytes(data[..n], w), Bytes(data[n], w));
      HasLength(file, end, Bytes(data[n], w));
      ElementsAre(file, pos, data[..n], w);
      OneMoreIsRead(file, pos, w, n);
      ChunkIs(file, end, Bytes(data[n], w));
      ElementIs(data[n], w);
      assert data == data[..n] + [data[n]];
    }
  }

  lemma NoneAreRead(file: seq<Byte>, pos: nat, w: nat)
    requires IsWidth(w) && pos <= |file|
    ensures ReadElements(file, pos, w, 0) == []
  {
  }

  lemma OneMoreIsRead(file: seq<Byte>, pos: nat, w: nat, n: nat)
    requires IsWidth(w) && pos + (n + 1) * w <= |file| && pos + n * w + w <= |file| && pos + n * w <= |file|
    ensures ReadElements(file, pos, w, n + 1) == ReadElements(file, pos, w, n) + [Wrap(Number(Chunk(file, pos + n * w, w)), w)]
  {
  }

  lemma ElementIs(x: int, w: int)
    requires IsWidth(w) && Fits(x, w)
    ensures Wrap(Number(Bytes(x, w)), w) == x
  {
    SignedOfBytes(x, w);
  }

  lemma HeadParts(file: seq<Byte>, pos: nat, t: Table)
    requires Has(file, pos, TableHead(t))
    ensures Chunk(file, pos, 2) == Bytes(t.id, 2) && Chunk(file, pos + 2, 2) == Bytes(t.flags, 2)
    ensures Chunk(file, pos + 4, 4) == Bytes(t.hilen, 4) && Chunk(file, pos + 8, 4) == Bytes(t.lolen, 4)
  {
    hide Bytes, Has, Chunk;
    HasParts(file, pos, Bytes(t.id, 2) + Bytes(t.flags, 2) + Bytes(t.hilen, 4), Bytes(t.lolen, 4));
    HasParts(file, pos, Bytes(t.id, 2) + Bytes(t.flags, 2), Bytes(t.hilen, 4));
    HasParts(file, pos, Bytes(t.id, 2), Bytes(t.flags, 2));
    ChunkIs(file, pos, Bytes(t.id, 2));
    ChunkIs(file, pos + 2, Bytes(t.flags, 2));
    ChunkIs(file, pos + 4, Bytes(t.hilen, 4));
    ChunkIs(file, pos + 8, Bytes(t.lolen, 4));
  }

  lemma FieldsAre(file: seq<Byte>, pos: nat, t: Table)
    requires TableOk(t) && Has(file, pos, TableHead(t))
    ensures Number(Chunk(file, pos, 2)) == t.id && Number(Chunk(file, pos + 2, 2)) == t.flags
    ensures Number(Chunk(file, pos + 4, 4)) == t.hilen && Number(Chunk(file, pos + 8, 4)) == t.lolen
  {
    hide Bytes, Has, Chunk, Number;
    HeadParts(file, pos, t);
    NumberOfBytes(t.id, 2);
    NumberOfBytes(t.flags, 2);
    NumberOfBytes(t.hilen, 4);
    NumberOfBytes(t.lolen, 4);
  }

  /** A structure table's length is even, so reading in pairs reads just its elements. */
  lemma RoundedIs(t: Table)
    requires TableOk(t)
    ensures Rounded(t.flags, TotalLen(t.id, t.hilen, t.lolen)) == |t.data|
  {
    hide Wrap, Fits, Structs, Width;
    if t.id == ID_TRANSITION {
      var n := Wrap(t.lolen, 4);
      WrapEven(if t.hilen > 0 then Wrap(n * t.hilen, 4) else n);
    }
  }

  lemma WrapEven(m: int)
    ensures Wrap(m * 2, 4) % 2 == 0
  {
    var q := m * 2 / 0x1_0000_0000;
    assert Low(m * 2, 4) == 2 * (m - 0x8000_0000 * q);
  }

  lemma RestIsRead(file: seq<Byte>, pos: nat, bread: nat, t: Table, dmap: seq<Entry>)
    requires TableOk(t) && Has(file, pos, ElementBytes(t.data, Width(t.flags))) && (t.data != [] ==> !Dangling(t.flags, dmap))
    requires pos + |t.data| * Width(t.flags) + Pad(bread + |t.data| * Width(t.flags)) <= |file|
    ensures ReadRest(file, pos, bread, t.id, t.flags, |t.data|, dmap) == Got(Read(t.id, Converted(t.data, t.flags, Lookup(dmap, t.id)),
      pos + |t.data| * Width(t.flags) + Pad(bread + |t.data| * Width(t.flags))))
  {
    hide Has, ElementBytes, Dangling, Width, Pad, BodyStatus, ReadElements, Converted;
    var w: nat := Width(t.flags);
    BodyDone(file, pos, t.flags, |t.data|, dmap);
    ElementsAre(file, pos, t.data, w);
  }

  lemma TableParts(file: seq<Byte>, pos: nat, t: Table)
    requires Has(file, pos, TableBytes(t))
    ensures Has(file, pos, TableHead(t)) && Has(file, pos + 12, ElementBytes(t.data, Width(t.flags)))
    ensures |TableBytes(t)| == 12 + |t.data| * Width(t.flags) + Pad(12 + |t.data| * Width(t.flags)) && pos + |TableBytes(t)| <= |file|
  {
    hide Has, ElementBytes, Width, Pad, TableHead;
    var a, b := TableHead(t), ElementBytes(t.data, Width(t.flags));
    HasLength(file, pos, TableBytes(t));
    HasParts(file, pos, a + b, Zeros(Pad(|a + b|)));
    HasParts(file, pos, a, b);
  }

  lemma HasLength(file: seq<Byte>, pos: nat, bs: seq<Byte>)
    requires Has(file, pos, bs)
    ensures pos + |bs| <= |file|
  {
  }

  /** A table that the scanner has is read back, each element as the scanner's own type holds it. */
  lemma TableIsRead(file: seq<Byte>, pos: nat, bread: nat, t: Table, dmap: seq<Entry>)
    requires TableOk(t) && Has(file, pos, TableBytes(t)) && bread % 8 == 0
    requires Lookup(dmap, t.id) != 0 && (t.data != [] ==> !Dangling(t.flags, dmap))
    ensures ReadTable(file, pos, bread, dmap) == Got(Read(t.id, Converted(t.data, t.flags, Lookup(dmap, t.id)), pos + |TableBytes(t)|))
  {
    hide Has, ElementBytes, Dangling, Width, Pad, ReadRest, Converted, Rounded, TableOk, TableBytes, Number, Chunk, TotalLen;
    TableParts(file, pos, t);
    FieldsAre(file, pos, t);
    RoundedIs(t);
    PadOfSum(bread, 12 + |t.data| * Width(t.flags));
    RestIsRead(file, pos + 12, bread + 12, t, dmap);
  }

  // ---- sets ----

  /** The scanner has the tables, and the transitions if there are indices of them. */
  ghost predicate HasRoom(ts: seq<Table>, dmap: seq<Entry>) {
    forall t :: t in ts ==> TableOk(t) && Lookup(dmap, t.id) != 0 && (t.data != [] ==> !Dangling(t.flags, dmap))
  }

  /** What the scanner has after loading tables in order. */
  function LoadedFrom(ts: seq<Table>, dmap: seq<Entry>): Tables {
    if ts == [] then map[]
    else
      var t := ts[|ts| - 1];
      LoadedFrom(ts[..|ts| - 1], dmap)[t.id := Converted(t.data, t.flags, Lookup(dmap, t.id))]
  }

  /** For each id there is what the last table of that id holds. */
  lemma {:induction false} LoadedHas(ts: seq<Table>, dmap: seq<Entry>, i: nat)
    requires i < |ts| && forall j :: i < j < |ts| ==> ts[j].id != ts[i].id
    ensures ts[i].id in LoadedFrom(ts, dmap) && LoadedFrom(ts, dmap)[ts[i].id] == Converted(ts[i].data, ts[i].flags, Lookup(dmap, ts[i].id))
  {
    hide Converted, Lookup;
    if i < |ts| - 1 {
      LoadedHas(ts[..|ts| - 1], dmap, i);
    }
  }

  lemma {:induction false} LoadedKeys(ts: seq<Table>, dmap: seq<Entry>, id: int)
    ensures id in LoadedFrom(ts, dmap) <==> exists i :: 0 <= i < |ts| && ts[i].id == id
  {
    hide Converted, Lookup;
    if ts != [] {
      var n := |ts| - 1;
      LoadedKeys(ts[..n], dmap, id);
      if i :| 0 <= i < |ts| && ts[i].id == id {
        assert i < n ==> ts[..n][i].id == id;
      }
      if i :| 0 <= i < n && ts[..n][i].id == id {
        assert ts[i].id == id;
      }
    }
  }

  lemma {:induction false} TableInSet(file: seq<Byte>, pos: nat, ts: seq<Table>, k: nat)
    requires Has(file, pos, TablesBytes(ts)) && k < |ts|
    ensures Has(file, pos + |TablesBytes(ts[..k])|, TableBytes(ts[k]))
    ensures |TablesBytes(ts[..k + 1])| == |TablesBytes(ts[..k])| + |TableBytes(ts[k])| <= |TablesBytes(ts)|
  {
    hide Has, TableBytes;
    var n := |ts| - 1;
    HasParts(file, pos, TablesBytes(ts[..n]), TableBytes(ts[n]));
    if k < n {
      assert ts[..n][..k] == ts[..k] && ts[..n][..k + 1] == ts[..k + 1];
      TableInSet(file, pos, ts[..n], k);
    } else {
      assert ts[..k + 1] == ts;
    }
  }

  /** The tables of a set from the k-th on are read back. */
  lemma {:induction false} TablesAreRead(file: seq<Byte>, pos: nat, bread: nat, ts: seq<Table>, dmap: seq<Entry>, k: nat)
    requires Has(file, pos, TablesBytes(ts)) && bread % 8 == 0 && HasRoom(ts, dmap) && k <= |ts|
    ensures var n := |TablesBytes(ts[..k])|;
      ReadTables(file, pos + n, bread + n, bread + |TablesBytes(ts)|, dmap, LoadedFrom(ts[..k], dmap))
        == Got(Loaded(LoadedFrom(ts, dmap), bread + |TablesBytes(ts)|))
    decreases |ts| - k
  {
    hide Has, TablesBytes, TableBytes, ReadTable, Converted, TableOk, Dangling, Lookup;
    if k == |ts| {
      assert ts[..k] == ts;
    } else {
      var n := |TablesBytes(ts[..k])|;
      TableInSet(file, pos, ts, k);
      TablesAreAligned(ts[..k]);
      AlignedIs(n);
      assert ts[k] in ts;
      TableIsRead(file, pos + n, bread + n, ts[k], dmap);
      TableIsLong(ts[k]);
      assert ts[..k + 1][..k] == ts[..k] && ts[..k + 1][k] == ts[k];
      TablesAreRead(file, pos, bread, ts, dmap, k + 1);
    }
  }

  lemma TableIsLong(t: Table)
    ensures |TableBytes(t)| >= 12
  {
  }

  // ---- headers ----

  lemma {:induction false} TextIs(t: seq<Byte>, rest: seq<Byte>)
    requires TextOk(t)
    ensures Text(t + [0] + rest) == t
  {
    var all := t + [0] + rest;
    if t != [] {
      assert all[0] == t[0] && all[1..] == t[1..] + [0] + rest;
      TextIs(t[1..], rest);
    }
  }

  lemma NameIs(version: seq<Byte>, name: seq<Byte>, rest: seq<Byte>)
    requires TextOk(version) && TextOk(name)
    ensures NameIn(version + [0] + name + [0] + rest) == name
  {
    hide Text;
    var all := version + [0] + name + [0] + rest;
    assert all == version + [0] + (name + [0] + rest);
    TextIs(version, name + [0] + rest);
    assert all[|version| + 1..] == name + [0] + rest;
    TextIs(name, rest);
  }

  lemma HeaderIsSize(version: seq<Byte>, name: seq<Byte>, s: int)
    ensures var h := HdrInit(version, name); h.hsize == |HeaderBytes(h, s)| && h.hsize % 8 == 0 && h.hsize >= 16
  {
    hide Pad;
  }

  lemma HeaderParts(file: seq<Byte>, pos: nat, h: Header, s: int)
    requires Has(file, pos, HeaderBytes(h, s))
    ensures pos + |HeaderBytes(h, s)| <= |file| && |HeaderBytes(h, s)| >= 16
    ensures Chunk(file, pos, 4) == Bytes(h.magic, 4) && Chunk(file, pos + 4, 4) == Bytes(h.hsize, 4) && Chunk(file, pos + 8, 4) == Bytes(s, 4)
    ensures Chunk(file, pos + 14, |HeaderBytes(h, s)| - 14)
      == h.version + [0] + h.name + [0] + Zeros(Pad(16 + |h.version| + |h.name|))
  {
    hide Has, Bytes, Chunk, Pad, Zeros;
    var t := h.version + [0] + h.name + [0] + Zeros(Pad(16 + |h.version| + |h.name|));
    HasLength(file, pos, HeaderBytes(h, s));
    assert HeaderBytes(h, s) == Start(h, s) + t;
    HasParts(file, pos, Start(h, s), t);
    ChunkIs(file, pos + 14, t);
    HasParts(file, pos, Bytes(h.magic, 4) + Bytes(h.hsize, 4) + Bytes(s, 4), Bytes(h.flags, 2));
    HasParts(file, pos, Bytes(h.magic, 4) + Bytes(h.hsize, 4), Bytes(s, 4));
    HasParts(file, pos, Bytes(h.magic, 4), Bytes(h.hsize, 4));
    ChunkIs(file, pos, Bytes(h.magic, 4));
    ChunkIs(file, pos + 4, Bytes(h.hsize, 4));
    ChunkIs(file, pos + 8, Bytes(s, 4));
  }

  /** A header is read back if it is no longer than 1024 bytes, and refused otherwise. */
  lemma HeaderIsRead(file: seq<Byte>, pos: nat, version: seq<Byte>, name: seq<Byte>, s: int)
    requires TextOk(version) && TextOk(name) && 0 <= s < Size(4)
    requires var h := HdrInit(version, name); Has(file, pos, HeaderBytes(h, s)) && h.hsize < Size(4)
    ensures var h := HdrInit(version, name); ReadHeader(file, pos) == if h.hsize <= 1024 then Got(Head(h.hsize, s, name)) else Fatal
  {
    hide Has, Bytes, Chunk, Number, Zeros, NameIn, HeaderBytes, TextOk, Pad;
    var h := HdrInit(version, name);
    HeaderParts(file, pos, h, s);
    HeaderIsSize(version, name, s);
    NumberOfBytes(h.magic, 4);
    NumberOfBytes(h.hsize, 4);
    NumberOfBytes(s, 4);
    NameIs(version, name, Zeros(Pad(16 + |h.version| + |h.name|)));
  }

  // ---- files ----

  /** What one run of flex writes. */
  datatype TableSet = TableSet(version: seq<Byte>, name: seq<Byte>, tables: seq<Table>)

  function BytesOf(s: TableSet): seq<Byte> {
    SetBytes(HdrInit(s.version, s.name), s.tables)
  }

  /** Sets one after the other in a file. */
  function FileBytes(sets: seq<TableSet>): seq<Byte> {
    if sets == [] then [] else BytesOf(sets[0]) + FileBytes(sets[1..])
  }

  /** The loader's limits: a header of at most 1024 bytes, and a size stated in 32 bits. */
  ghost predicate Loadable(s: TableSet) {
    TextOk(s.version) && TextOk(s.name) && HdrInit(s.version, s.name).hsize <= 1024 && |BytesOf(s)| < Size(4)
  }

  lemma SetParts(file: seq<Byte>, pos: nat, s: TableSet)
    requires Has(file, pos, BytesOf(s)) && Loadable(s)
    ensures var h := HdrInit(s.version, s.name);
      && ReadHeader(file, pos) == Got(Head(h.hsize, StatedSize(h, s.tables), s.name))
      && Has(file, pos + h.hsize, TablesBytes(s.tables)) && |BytesOf(s)| == h.hsize + |TablesBytes(s.tables)|
      && StatedSize(h, s.tables) == (if s.tables == [] then 0 else |BytesOf(s)|) && h.hsize % 8 == 0 && h.hsize >= 16
  {
    hide Has, HeaderBytes, TablesBytes, TextOk, ReadHeader;
    var h := HdrInit(s.version, s.name);
    var n := StatedSize(h, s.tables);
    HeaderIsSize(s.version, s.name, n);
    HeaderIsSize(s.version, s.name, 0);
    HasParts(file, pos, HeaderBytes(h, n), TablesBytes(s.tables));
    HeaderIsRead(file, pos, s.version, s.name, n);
  }

  /** A set that is wanted is loaded, and all its bytes are read. */
  lemma SetIsLoaded(file: seq<Byte>, pos: nat, s: TableSet, key: Key, dmap: seq<Entry>)
    requires Has(file, pos, BytesOf(s)) && Loadable(s) && Wanted(key, s.name) && HasRoom(s.tables, dmap)
    ensures Fload(file, pos, key, dmap) == Got(Loaded(LoadedFrom(s.tables, dmap), |BytesOf(s)|))
  {
    hide Has, BytesOf, ReadHeader, TablesBytes, HasRoom, Loadable, Fload, ReadTables, HdrInit, StatedSize, LoadedFrom, Wanted;
    SetParts(file, pos, s);
    var h := HdrInit(s.version, s.name);
    HeaderLeadsOn(file, pos, key, dmap);
    StartsEmpty(s.tables, dmap);
    if s.tables == [] {
      NothingToRead(file, pos + h.hsize, h.hsize, dmap);
      NoTableBytes(s.tables);
      assert s.tables[..0] == s.tables;
    } else {
      TablesAreRead(file, pos + h.hsize, h.hsize, s.tables, dmap, 0);
    }
  }

  lemma NothingToRead(file: seq<Byte>, pos: nat, bread: nat, dmap: seq<Entry>)
    ensures ReadTables(file, pos, bread, 0, dmap, map[]) == Got(Loaded(map[], bread))
  {
  }

  lemma NoTableBytes(ts: seq<Table>)
    ensures ts == [] ==> |TablesBytes(ts)| == 0
  {
  }

  lemma HeaderLeadsOn(file: seq<Byte>, pos: nat, key: Key, dmap: seq<Entry>)
    requires ReadHeader(file, pos).Got?
    ensures var h := ReadHeader(file, pos).value;
      var r := if Wanted(key, h.name) then ReadTables(file, pos + h.hsize, h.hsize, h.ssize, dmap, map[])
               else Fload(file, pos + h.hsize + Low(h.ssize - h.hsize, 4), key, dmap);
      Fload(file, pos, key, dmap) == r
  {
    hide ReadHeader, ReadTables, Low;
  }

  lemma StartsEmpty(ts: seq<Table>, dmap: seq<Entry>)
    ensures |TablesBytes(ts[..0])| == 0 && LoadedFrom(ts[..0], dmap) == map[]
  {
  }

  /** The first set that is wanted. */
  function FindSet(sets: seq<TableSet>, key: Key): (j: nat)
    ensures j <= |sets|
  {
    if sets == [] || Wanted(key, sets[0].name) then 0 else 1 + FindSet(sets[1..], key)
  }

  lemma EndIsReached(file: seq<Byte>, pos: nat, key: Key, dmap: seq<Entry>)
    requires pos == |file|
    ensures Fload(file, pos, key, dmap) == Eof
  {
  }

  lemma LowIsSame(n: int)
    ensures 0 <= n < Size(4) ==> Low(n, 4) == n
  {
  }

  /** Behind a set that is not wanted and holds no table nothing is found: its size was never patched, and the seek leaves the file. */
  lemma EmptySetHidesRest(file: seq<Byte>, pos: nat, s: TableSet, key: Key, dmap: seq<Entry>)
    requires Has(file, pos, BytesOf(s)) && Loadable(s) && !Wanted(key, s.name) && s.tables == [] && |file| < Size(4)
    ensures Fload(file, pos, key, dmap) == Eof
  {
    hide Has, BytesOf, TablesBytes, Loadable, ReadTables, HdrInit, StatedSize, Wanted;
    SetParts(file, pos, s);
    HeaderLeadsOn(file, pos, key, dmap);
    var h := HdrInit(s.version, s.name);
    SizeIsSmall(h.hsize);
    LowOfNegative(h.hsize);
  }

  lemma SizeIsSmall(n: nat)
    ensures n <= 1024 ==> n < Size(4)
  {
  }

  lemma LowOfNegative(n: nat)
    ensures 0 < n < Size(4) ==> Low(0 - n, 4) == Size(4) - n
  {
  }

  /** Every set before the wanted one holds a table. */
  ghost predicate NoneEmptyBefore(sets: seq<TableSet>, key: Key) {
    forall j :: 0 <= j < FindSet(sets, key) ==> sets[j].tables != []
  }

  /**
   The first wanted set is loaded if and only if every set before it holds a table; otherwise, and if
   no set is wanted, the end of the file is reported.  (In a file of 4 GiB or more the seek past a set
   without tables may end anywhere.)
   */
  lemma {:induction false} FileIsLoaded(file: seq<Byte>, pos: nat, sets: seq<TableSet>, key: Key, dmap: seq<Entry>)
    requires Has(file, pos, FileBytes(sets)) && (forall s :: s in sets ==> Loadable(s))
    requires |file| < Size(4) || NoneEmptyBefore(sets, key)
    requires FindSet(sets, key) == |sets| ==> pos + |FileBytes(sets)| == |file|
    requires FindSet(sets, key) < |sets| ==> HasRoom(sets[FindSet(sets, key)].tables, dmap)
    ensures Fload(file, pos, key, dmap)
      == if FindSet(sets, key) < |sets| && NoneEmptyBefore(sets, key)
         then Got(Loaded(LoadedFrom(sets[FindSet(sets, key)].tables, dmap), |BytesOf(sets[FindSet(sets, key)])|)) else Eof
    decreases |sets|
  {
    hide Has, BytesOf, TablesBytes, HasRoom, Loadable, ReadTables, ReadHeader, Fload, HdrInit, StatedSize, LoadedFrom, Wanted;
    if sets == [] {
      EndIsReached(file, pos, key, dmap);
    } else {
      var s := sets[0];
      assert s in sets;
      HasParts(file, pos, BytesOf(s), FileBytes(sets[1..]));
      if Wanted(key, s.name) {
        SetIsLoaded(file, pos, s, key, dmap);
      } else if s.tables == [] {
        assert !NoneEmptyBefore(sets, key) by {
          assert sets[0].tables == [];
        }
        EmptySetHidesRest(file, pos, s, key, dmap);
      } else {
        SetParts(file, pos, s);
        HeaderLeadsOn(file, pos, key, dmap);
        LowIsSame(|TablesBytes(s.tables)|);
        NoneEmptyInRest(sets, key);
        FileIsLoaded(file, pos + |BytesOf(s)|, sets[1..], key, dmap);
      }
    }
  }

  /** The set that is looked for: the first one of that name, or just the first one. */
  lemma {:induction false} FindSetIs(sets: seq<TableSet>, key: Key)
    ensures key.Any? ==> FindSet(sets, key) == 0
    ensures key.Named? ==> forall i :: 0 <= i < FindSet(sets, key) ==> sets[i].name != key.name
    ensures key.Named? && FindSet(sets, key) < |sets| ==> sets[FindSet(sets, key)].name == key.name
  {
    if sets != [] && !Wanted(key, sets[0].name) {
      FindSetIs(sets[1..], key);
      forall i | 0 <= i < FindSet(sets, key) && key.Named?
        ensures sets[i].name != key.name
      {
        if i > 0 {
          assert sets[1..][i - 1] == sets[i];
        }
      }
    }
  }

  lemma FileIsWhole(file: seq<Byte>)
    ensures Has(file, 0, file)
  {
  }

  /** The scanner has the tables of every set that may be loaded. */
  ghost predicate RoomForWanted(sets: seq<TableSet>, key: Key, dmap: seq<Entry>) {
    match key
    case Any => sets == [] || HasRoom(sets[0].tables, dmap)
    case Named(name) => forall s :: s in sets && s.name == name ==> HasRoom(s.tables, dmap)
  }

  /**
   Loads from a file of sets.  With a name the first set of that name is loaded, if there is one and
   every set before it holds a table; without, the first set.  Otherwise the end of the file is reported.
   */
  method LoadFrom(file: seq<Byte>, ghost sets: seq<TableSet>, key: Key, dmap: seq<Entry>)
    returns (status: Status, loaded: Tables, bread: nat)
    requires file == FileBytes(sets) && (forall s :: s in sets ==> Loadable(s)) && DmapOk(dmap) && RoomForWanted(sets, key, dmap)
    requires |file| < Size(4) || forall s :: s in sets ==> s.tables != []
    ensures status == Okay || status == AtEof
    ensures key.Named? && status == Okay ==>
      exists j :: 0 <= j < |sets| && sets[j].name == key.name && (forall i :: 0 <= i < j ==> sets[i].name != key.name)
        && loaded == LoadedFrom(sets[j].tables, dmap) && bread == |BytesOf(sets[j])|
    ensures key.Named? ==> (status == Okay <==>
      exists j :: 0 <= j < |sets| && sets[j].name == key.name && forall i :: 0 <= i < j ==> sets[i].name != key.name && sets[i].tables != [])
    ensures key.Any? ==> (status == Okay <==> sets != [])
    ensures key.Any? && status == Okay ==> loaded == LoadedFrom(sets[0].tables, dmap) && bread == |BytesOf(sets[0])|
  {
    hide Loadable, DmapOk, BytesOf, HasRoom, Fload, LoadedFrom, Wanted, Has;
    FileIsWhole(file);
    FindSetIs(sets, key);
    ghost var j := FindSet(sets, key);
    assert j < |sets| ==> sets[j] in sets;
    FileIsLoaded(file, 0, sets, key, dmap);
    var r := new Reader(file);
    status := r.Load(key, dmap);
    loaded, bread := r.loaded, r.bread;
  }

  lemma NoneEmptyInRest(sets: seq<TableSet>, key: Key)
    requires sets != [] && sets[0].tables != [] && !Wanted(key, sets[0].name)
    ensures NoneEmptyBefore(sets, key) <==> NoneEmptyBefore(sets[1..], key)
  {
    if NoneEmptyBefore(sets, key) {
      assert forall j :: 0 <= j < FindSet(sets[1..], key) ==> sets[1..][j] == sets[j + 1];
    }
    if NoneEmptyBefore(sets[1..], key) {
      assert forall j :: 1 <= j < FindSet(sets, key) ==> sets[j] == sets[1..][j - 1];
    }
  }

  // ---- what the scanner has then ----

  /** A loaded table holds every element as written exactly if it holds indices, or its elements fit the scanner's type. */
  lemma ConvertedIsSame(data: seq<int>, flags: int, size: int)
    ensures Converted(data, flags, size) == data <==> (Pointers(flags) && !Structs(flags)) || forall x :: x in data ==> Fits(x, size)
  {
    var c := Converted(data, flags, size);
    if c == data {
      forall x | x in data && !(Pointers(flags) && !Structs(flags))
        ensures Fits(x, size)
      {
        var i :| 0 <= i < |data| && data[i] == x;
        assert c[i] == Convert(data[i], flags, size);
      }
    }
  }

  /** Narrowing a table before writing it changes nothing of what is loaded, if it kept its elements. */
  lemma NarrowingIsUnseen(t: Table, t1: Table, size: int)
    requires t1.data == t.data && t1.flags / 8 == t.flags / 8
    ensures Converted(t1.data, t1.flags, size) == Converted(t.data, t.flags, size)
  {
    forall i | 0 <= i < |t.data|
      ensures Convert(t1.data[i], t1.flags, size) == Convert(t.data[i], t.flags, size)
    {
      assert t.flags / 16 == t.flags / 8 / 2 && t1.flags / 16 == t1.flags / 8 / 2;
    }
  }

  // ---- saving and loading ----

  /** The tables differ in the width of their elements only. */
  ghost predicate SameTables(ts: seq<Table>, us: seq<Table>) {
    |ts| == |us| && forall i :: 0 <= i < |ts| ==> us[i].(flags := ts[i].flags) == ts[i] && us[i].flags / 8 == ts[i].flags / 8
  }

  /** No table has wider elements than before. */
  predicate Narrower(ts: seq<Table>, us: seq<Table>) {
    |ts| == |us| && forall i :: 0 <= i < |ts| ==> |us[i].data| == |ts[i].data| && Width(us[i].flags) <= Width(ts[i].flags)
  }

  lemma TableIsShorter(t: Table, u: Table)
    requires |u.data| == |t.data| && Width(u.flags) <= Width(t.flags)
    ensures |TableBytes(u)| <= |TableBytes(t)|
  {
    hide Width, Pad;
    var n, m := 12 + |u.data| * Width(u.flags), 12 + |t.data| * Width(t.flags);
    WiderIsLonger(|t.data|, Width(u.flags), Width(t.flags));
    PaddedIsLonger(n, m);
  }

  lemma WiderIsLonger(n: nat, v: nat, w: nat)
    requires v <= w
    ensures n * v <= n * w
  {
  }

  lemma PaddedIsLonger(n: nat, m: nat)
    requires n <= m
    ensures n + Pad(n) <= m + Pad(m)
  {
  }

  lemma {:induction false} TablesAreShorter(ts: seq<Table>, us: seq<Table>)
    requires Narrower(ts, us)
    ensures |TablesBytes(us)| <= |TablesBytes(ts)|
  {
    hide TableBytes, Width;
    if ts != [] {
      var n := |ts| - 1;
      TablesAreShorter(ts[..n], us[..n]);
      TableIsShorter(ts[n], us[n]);
    }
  }

  /** Narrowing does not lengthen a set. */
  lemma SetIsShorter(version: seq<Byte>, name: seq<Byte>, ts: seq<Table>, us: seq<Table>)
    requires Narrower(ts, us)
    ensures |BytesOf(TableSet(version, name, us))| <= |BytesOf(TableSet(version, name, ts))|
  {
    hide TablesBytes, Narrower, HdrInit;
    TablesAreShorter(ts, us);
  }

  lemma {:induction false} SameAreLoaded(ts: seq<Table>, us: seq<Table>, dmap: seq<Entry>)
    requires SameTables(ts, us)
    ensures LoadedFrom(us, dmap) == LoadedFrom(ts, dmap)
  {
    hide Converted;
    if ts != [] {
      var n := |ts| - 1;
      SameAreLoaded(ts[..n], us[..n], dmap);
      NarrowingIsUnseen(ts[n], us[n], Lookup(dmap, ts[n].id));
    }
  }

  lemma SameHaveRoom(ts: seq<Table>, us: seq<Table>, dmap: seq<Entry>)
    requires SameTables(ts, us) && HasRoom(ts, dmap) && forall u :: u in us ==> TableOk(u)
    ensures HasRoom(us, dmap)
  {
    hide TableOk, Lookup, Dangling;
    forall u | u in us
      ensures Lookup(dmap, u.id) != 0 && (u.data != [] ==> !Dangling(u.flags, dmap))
    {
      var i :| 0 <= i < |us| && us[i] == u;
      assert ts[i] in ts;
      SameKind(u.flags, ts[i].flags, dmap);
    }
  }

  lemma SameKind(f: int, g: int, dmap: seq<Entry>)
    requires f / 8 == g / 8
    ensures Dangling(f, dmap) == Dangling(g, dmap)
  {
    assert f / 16 == f / 8 / 2 && g / 16 == g / 8 / 2;
  }

  /** Narrows and writes tables one by one, as gentabs does; gives up if a table is extreme. */
  method Save(w: Writer, version: seq<Byte>, name: seq<Byte>, ts: seq<Table>) returns (ok: bool, ghost us: seq<Table>)
    requires w.AtEnd() && w.total == 0 && w.file == [] && forall t :: t in ts ==> TableOk(t)
    modifies w
    ensures ok <==> forall t :: t in ts ==> !Extreme(t)
    ensures ok ==> |us| == |ts| && w.file == BytesOf(TableSet(version, name, us)) && forall u :: u in us ==> TableOk(u)
    ensures ok ==> Narrower(ts, us)
    ensures ok && (forall t :: t in ts ==> !Loses(t)) ==> SameTables(ts, us)
  {
    hide TableOk, Extreme, Loses, HeaderBytes, TablesBytes, Writer.AtEnd;
    var h := HdrInit(version, name);
    HeaderIsSize(version, name, h.ssize);
    ok := w.HdrFwrite(h);
    us := [];
    for i := 0 to |ts|
      invariant w.Holds([], h, us) && |us| == i && (forall u :: u in us ==> TableOk(u)) && forall j :: 0 <= j < i ==> !Extreme(ts[j])
      invariant forall j :: 0 <= j < i ==> |us[j].data| == |ts[j].data| && Width(us[j].flags) <= Width(ts[j].flags)
      invariant forall j :: 0 <= j < i && !Loses(ts[j]) ==> us[j].(flags := ts[j].flags) == ts[j] && us[j].flags / 8 == ts[j].flags / 8
    {
      var r := Compress(ts[i]);
      if r.Died? {
        assert ts[i] in ts && Extreme(ts[i]);
        return false, us;
      }
      var n := w.DataFwrite(r.table, [], h, us);
      us := us + [r.table];
    }
    ok := true;
  }

  lemma WholeIsLoaded(file: seq<Byte>, s: TableSet, key: Key, dmap: seq<Entry>)
    requires file == BytesOf(s) && |file| < Size(4) && TextOk(s.version) && TextOk(s.name) && HdrInit(s.version, s.name).hsize <= 1024
    requires Wanted(key, s.name) && HasRoom(s.tables, dmap)
    ensures Fload(file, 0, key, dmap) == Got(Loaded(LoadedFrom(s.tables, dmap), |file|))
  {
    hide BytesOf, TextOk, HdrInit, Wanted, HasRoom, Fload, LoadedFrom;
    SetIsLoaded(file, 0, s, key, dmap);
  }

  /** As many elements, and those that the scanner's type can hold are the same. */
  ghost predicate SameElements(a: seq<int>, b: seq<int>, size: int) {
    |a| == |b| && forall i :: 0 <= i < |a| && -(Size(size) / 2) <= b[i] < Size(size) / 2 ==> a[i] == b[i]
  }

  lemma LastTablesAreLoaded(ts: seq<Table>, dmap: seq<Entry>)
    ensures forall i :: 0 <= i < |ts| && (forall j :: i < j < |ts| ==> ts[j].id != ts[i].id) ==>
      ts[i].id in LoadedFrom(ts, dmap) && SameElements(LoadedFrom(ts, dmap)[ts[i].id], ts[i].data, Lookup(dmap, ts[i].id))
  {
    hide LoadedFrom, Lookup;
    forall i | 0 <= i < |ts| && (forall j :: i < j < |ts| ==> ts[j].id != ts[i].id)
      ensures ts[i].id in LoadedFrom(ts, dmap) && SameElements(LoadedFrom(ts, dmap)[ts[i].id], ts[i].data, Lookup(dmap, ts[i].id))
    {
      LoadedHas(ts, dmap, i);
    }
  }

  /**
   Tables that are saved and loaded come back as they were, each element as the scanner's type holds
   it, if none holds an element that narrowing cannot deal with and the file is of less than 4 GiB; it
   is, if the tables as they were would fit.  The loader stops at the last byte of the file.
   */
  method SaveAndLoad(version: seq<Byte>, name: seq<Byte>, ts: seq<Table>, key: Key, dmap: seq<Entry>)
    returns (size: nat, ok: bool, loaded: Tables, bread: nat, ghost us: seq<Table>)
    requires TextOk(version) && TextOk(name) && HdrInit(version, name).hsize <= 1024 && Wanted(key, name)
    requires DmapOk(dmap) && HasRoom(ts, dmap) && (forall t :: t in ts ==> !Extreme(t) && !Loses(t))
    ensures SameTables(ts, us) && Narrower(ts, us)
    ensures size == |BytesOf(TableSet(version, name, us))| <= |BytesOf(TableSet(version, name, ts))|
    ensures |BytesOf(TableSet(version, name, us))| < Size(4) ==> ok && loaded == LoadedFrom(ts, dmap) && bread == size
    ensures |BytesOf(TableSet(version, name, us))| < Size(4) ==>
      forall i :: 0 <= i < |ts| && (forall j :: i < j < |ts| ==> ts[j].id != ts[i].id) ==>
        ts[i].id in loaded && SameElements(loaded[ts[i].id], ts[i].data, Lookup(dmap, ts[i].id))
  {
    hide Extreme, Loses, BytesOf, TextOk, DmapOk, HdrInit, TableOk, Wanted, Narrower, Writer.AtEnd;
    var w := new Writer([]);
    var saved;
    saved, us := Save(w, version, name, ts);
    var r := new Reader(w.file);
    ghost var s := TableSet(version, name, us);
    SameHaveRoom(ts, us, dmap);
    SameAreLoaded(ts, us, dmap);
    SetIsShorter(version, name, ts, us);
    LastTablesAreLoaded(ts, dmap);
    if |w.file| < Size(4) {
      WholeIsLoaded(w.file, s, key, dmap);
    }
    var status := r.Load(key, dmap);
    size, ok, loaded, bread := |w.file|, status == Okay, r.loaded, r.bread;
  }
}
