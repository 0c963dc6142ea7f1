/** The loader of table files in a generated scanner (`ext/flex/skel.c`). */
module TableReader {
  import opened TableData
  import opened TableWriter

  /** -1 for the end of the file, a fatal error, or a result. */
  datatype Outcome<T> = Eof | Fatal | Got(value: T)

  /** yytbl_dmap: a table the scanner has, and the size of its elements there. */
  datatype Entry = Entry(id: int, size: int)

  ghost predicate DmapOk(dmap: seq<Entry>) {
    forall e :: e in dmap ==> e.id != 0 && IsWidth(e.size)
  }

  /** The size of a table's elements, 0 if the scanner does not have it. */
  function Lookup(dmap: seq<Entry>, id: int): int {
    if dmap == [] then 0 else if dmap[0].id == id then dmap[0].size else Lookup(dmap[1..], id)
  }

  datatype Status = Okay | AtEof | Failed

  // ---- what is read ----

  function Chunk(file: seq<Byte>, pos: nat, n: nat): (bs: seq<Byte>)
    requires pos + n <= |file|
    ensures |bs| == n
  {
    file[pos..pos + n]
  }

  /** n integers of w bytes, sign-extended. */
  function ReadElements(file: seq<Byte>, pos: nat, w: nat, n: nat): (es: seq<int>)
    requires IsWidth(w) && pos + n * w <= |file|
    ensures |es| == n
  {
    if n == 0 then [] else ReadElements(file, pos, w, n - 1) + [Wrap(Number(Chunk(file, pos + (n - 1) * w, w)), w)]
  }

  /** What an integer becomes in the scanner's own table: one of its size, or an index of a transition. */
  function Convert(x: int, flags: int, size: int): int {
    if Pointers(flags) && !Structs(flags) then x else Wrap(x, size)
  }

  function Converted(es: seq<int>, flags: int, size: int): (r: seq<int>)
    ensures |r| == |es| && forall i :: 0 <= i < |es| ==> r[i] == Convert(es[i], flags, size)
  {
    if es == [] then [] else Converted(es[..|es| - 1], flags, size) + [Convert(es[|es| - 1], flags, size)]
  }

  /** Indices of transitions are no use without the transitions. */
  predicate Dangling(flags: int, dmap: seq<Entry>) {
    Pointers(flags) && !Structs(flags) && Lookup(dmap, ID_TRANSITION) == 0
  }

  datatype Read = Read(id: int, elements: seq<int>, next: nat)

  /** How many integers are read for len: structs are read in pairs. */
  function Rounded(flags: int, len: int): nat {
    if len <= 0 then 0 else if Structs(flags) then (len + 1) / 2 * 2 else len
  }

  /** How reading n integers ends. */
  function BodyStatus(file: seq<Byte>, pos: nat, flags: int, n: nat, dmap: seq<Entry>): (s: Status)
    ensures s == Okay ==> pos + n * Width(flags) <= |file|
  {
    if n > 0 && pos + Width(flags) > |file| then AtEof
    else if n > 0 && Dangling(flags, dmap) then Failed
    else if pos + n * Width(flags) > |file| then AtEof
    else Okay
  }

  /** The elements of a table and its padding. */
  function ReadRest(file: seq<Byte>, pos: nat, bread: nat, id: int, flags: int, n: nat, dmap: seq<Entry>): (r: Outcome<Read>)
    ensures r.Got? ==> pos <= r.value.next <= |file|
  {
    match BodyStatus(file, pos, flags, n, dmap)
    case AtEof => Eof
    case Failed => Fatal
    case Okay =>
      var end := pos + n * Width(flags);
      var next := end + Pad(bread + (end - pos));
      if next > |file| then Eof
      else Got(Read(id, Converted(ReadElements(file, pos, Width(flags), n), flags, Lookup(dmap, id)), next))
  }

  /** A table at pos, after bread bytes of its set. */
  function ReadTable(file: seq<Byte>, pos: nat, bread: nat, dmap: seq<Entry>): (r: Outcome<Read>)
    ensures r.Got? ==> pos + 12 <= r.value.next <= |file|
  {
    if pos + 12 > |file| then Eof
    else
      var id, flags := Number(Chunk(file, pos, 2)), Number(Chunk(file, pos + 2, 2));
      var len := TotalLen(id, Number(Chunk(file, pos + 4, 4)), Number(Chunk(file, pos + 8, 4)));
      if Lookup(dmap, id) == 0 then Fatal
      else ReadRest(file, pos + 12, bread + 12, id, flags, Rounded(flags, len), dmap)
  }

  type Tables = map<int, seq<int>>

  /** The tables of a set, and the number of its bytes that have been read. */
  datatype Loaded = Loaded(tables: Tables, bread: nat)

  /** Tables are read until bread has come to the size of the set. */
  function ReadTables(file: seq<Byte>, pos: nat, bread: nat, ssize: nat, dmap: seq<Entry>, loaded: Tables): Outcome<Loaded>
    decreases |file| - pos
  {
    if bread >= ssize then Got(Loaded(loaded, bread))
    else match ReadTable(file, pos, bread, dmap)
      case Got(r) => ReadTables(file, r.next, bread + (r.next - pos), ssize, dmap, loaded[r.id := r.elements])
      case Eof => Eof
      case Fatal => Fatal
  }

  /** The bytes before the first NUL. */
  function Text(bs: seq<Byte>): (t: seq<Byte>)
    ensures t <= bs
  {
    if bs == [] || bs[0] == 0 then [] else [bs[0]] + Text(bs[1..])
  }

  /** The name after the version. */
  function NameIn(bs: seq<Byte>): seq<Byte> {
    var n := |Text(bs)| + 1;
    if n <= |bs| then Text(bs[n..]) else []
  }

  datatype Head = Head(hsize: nat, ssize: nat, name: seq<Byte>)

  function ReadHeader(file: seq<Byte>, pos: nat): (r: Outcome<Head>)
    ensures r.Got? ==> 16 <= r.value.hsize <= 1024 && pos + r.value.hsize <= |file| && r.value.ssize < Size(4)
  {
    if pos + 4 > |file| then Eof
    else if Number(Chunk(file, pos, 4)) != MAGIC then Fatal
    else if pos + 14 > |file| then Eof
    else
      var hsize := Number(Chunk(file, pos + 4, 4));
      if hsize < 16 || hsize > 1024 then Fatal
      else if pos + hsize > |file| then Eof
      else Got(Head(hsize, Number(Chunk(file, pos + 8, 4)), NameIn(Chunk(file, pos + 14, hsize - 14))))
  }

  /** Any set will do, or the first with a name. */
  datatype Key = Any | Named(name: seq<Byte>)

  predicate Wanted(key: Key, name: seq<Byte>) {
    key.Any? || key.name == name
  }

  function Fload(file: seq<Byte>, pos: nat, key: Key, dmap: seq<Entry>): Outcome<Loaded>
    decreases |file| - pos
  {
    match ReadHeader(file, pos)
    case Got(h) =>
      if Wanted(key, h.name) then ReadTables(file, pos + h.hsize, h.hsize, h.ssize, dmap, map[])
      else Fload(file, pos + h.hsize + Low(h.ssize - h.hsize, 4), key, dmap)
    case Eof => Eof
    case Fatal => Fatal
  }

  // ---- the reader ----

  class Reader {
    const file: seq<Byte>
    var pos: nat
    var bread: nat
    var loaded: Tables

    constructor (file: seq<Byte>)
      ensures this.file == file && pos == 0 && bread == 0 && loaded == map[]
    {
      this.file, pos, bread, loaded := file, 0, 0, map[];
    }

    /** Reads an unsigned integer of 1, 2 or 4 bytes in network order. */
    method ReadInt(w: nat) returns (ok: bool, v: nat)
      requires IsWidth(w)
      modifies this`pos, this`bread
      ensures ok <==> old(pos) + w <= |file|
      ensures ok ==> v == Number(Chunk(file, old(pos), w)) && pos == old(pos) + w && bread == old(bread) + w
    {
      if pos + w > |file| {
        return false, 0;
      }
      v := Number(Chunk(file, pos, w));
      pos := pos + w;
      bread := bread + w;
      ok := true;
    }

    /** Reads the padding of a table. */
    method EatPadding() returns (ok: bool)
      requires pos <= |file|
      modifies this`pos, this`bread
      ensures ok <==> old(pos) + Pad(old(bread)) <= |file|
      ensures ok ==> pos == old(pos) + Pad(old(bread)) && bread == old(bread) + Pad(old(bread))
    {
      var pad := Pad(bread);
      while pad > 0
        invariant 0 <= pad <= Pad(old(bread))
        invariant pos == old(pos) + Pad(old(bread)) - pad && bread == old(bread) + Pad(old(bread)) - pad
        invariant pos <= |file|
      {
        var read, v := ReadInt(1);
        if !read {
          return false;
        }
        pad := pad - 1;
      }
      ok := true;
    }

    /** Reads an element and converts it to the scanner's own type. */
    method ReadElement(flags: nat, w: nat, size: int, dmap: seq<Entry>) returns (status: Status, x: int)
      requires w == Width(flags) && IsWidth(size)
      modifies this`pos, this`bread
      ensures status == if old(pos) + w > |file| then AtEof else if Dangling(flags, dmap) then Failed else Okay
      ensures status == Okay ==> pos == old(pos) + w && bread == old(bread) + w
      ensures status == Okay ==> x == Convert(Wrap(Number(Chunk(file, old(pos), w)), w), flags, size)
    {
      var read, v := ReadInt(w);
      if !read {
        return AtEof, 0;
      }
      if Dangling(flags, dmap) {
        return Failed, 0;
      }
      return Okay, Convert(Wrap(v, w), flags, size);
    }

    /** Reads len integers, or an even number of them for structs. */
    method ReadBody(flags: nat, len: int, size: int, dmap: seq<Entry>) returns (status: Status, elements: seq<int>)
      requires IsWidth(size) && pos <= |file|
      modifies this`pos, this`bread
      ensures status == BodyStatus(file, old(pos), flags, Rounded(flags, len), dmap)
      ensures var w, n := Width(flags), Rounded(flags, len); status == Okay ==>
        pos == old(pos) + n * w <= |file| && bread == old(bread) + n * w && elements == Converted(ReadElements(file, old(pos), w, n), flags, size)
    {
      hide Number, Wrap, Dangling, Converted, ReadElements, Structs, BodyStatus;
      var w: nat := Width(flags);
      var inner := if Structs(flags) then 2 else 1;
      ghost var p0, b0, n := pos, bread, Rounded(flags, len);
      elements := [];
      NoneRead(file, p0, w, flags, size);
      var i := 0;
      while i < len
        invariant 0 <= i <= n && (i < len || i == n) && (inner == 2 ==> i % 2 == 0)
        invariant pos == p0 + i * w <= |file| && bread == b0 + i * w && (i > 0 ==> !Dangling(flags, dmap))
        invariant elements == Converted(ReadElements(file, p0, w, i), flags, size)
      {
        var j := 0;
        ghost var i0 := i;
        while j < inner
          invariant 0 <= j <= inner && i == i0 + j <= n
          invariant pos == p0 + i * w <= |file| && bread == b0 + i * w && (i > 0 ==> !Dangling(flags, dmap))
          invariant elements == Converted(ReadElements(file, p0, w, i), flags, size)
        {
          assert i < n;
          BodyEnds(file, p0, w, flags, n, i, dmap);
          var x;
          status, x := ReadElement(flags, w, size, dmap);
          if status != Okay {
            return;
          }
          OneRead(file, p0, w, i, flags, size);
          elements := elements + [x];
          j, i := j + 1, i + 1;
        }
      }
      status := Okay;
      BodyDone(file, p0, flags, n, dmap);
    }

    /** Reads the fields of a table; TotalLen of its lengths is len. */
    method ReadFields() returns (ok: bool, id: nat, flags: nat, len: int)
      requires pos <= |file|
      modifies this`pos, this`bread
      ensures ok <==> old(pos) + 12 <= |file|
      ensures ok ==> pos == old(pos) + 12 && bread == old(bread) + 12
      ensures ok ==> id == Number(Chunk(file, old(pos), 2)) && flags == Number(Chunk(file, old(pos) + 2, 2))
      ensures ok ==> len == TotalLen(id, Number(Chunk(file, old(pos) + 4, 4)), Number(Chunk(file, old(pos) + 8, 4)))
    {
      hide Number, TotalLen, Chunk;
      len := 0;
      var hilen, lolen;
      ok, id := ReadInt(2);
      if !ok {
        return ok, 0, 0, 0;
      }
      ok, flags := ReadInt(2);
      if !ok {
        return ok, 0, 0, 0;
      }
      ok, hilen := ReadInt(4);
      if !ok {
        return ok, 0, 0, 0;
      }
      ok, lolen := ReadInt(4);
      if ok {
        len := TotalLen(id, hilen, lolen);
      }
    }

    /** Reads a table into the scanner's own of the same id. */
    method DataLoad(dmap: seq<Entry>) returns (status: Status)
      requires DmapOk(dmap) && pos <= |file|
      modifies this
      ensures status == StatusOf(ReadTable(file, old(pos), old(bread), dmap))
      ensures status == Okay ==> var r := ReadTable(file, old(pos), old(bread), dmap).value;
        pos == r.next <= |file| && bread == old(bread) + (r.next - old(pos)) && loaded == old(loaded)[r.id := r.elements]
    {
      hide Number, TotalLen, Chunk, Converted, ReadElements, BodyStatus, Pad, Rounded, IsWidth, DmapOk, Width;
      var read, id, flags, len := ReadFields();
      if !read {
        return AtEof;
      }
      var size := Lookup(dmap, id);
      if size == 0 {
        return Failed;
      }
      LookupOk(dmap, id);
      var elements;
      status, elements := ReadBody(flags, len, size, dmap);
      if status != Okay {
        return;
      }
      var ate := EatPadding();
      if !ate {
        return AtEof;
      }
      loaded := loaded[id := elements];
    }

    /** Reads the header of a set. */
    method HdrRead() returns (status: Status, h: Head)
      modifies this`pos, this`bread
      ensures status == StatusOf(ReadHeader(file, old(pos)))
      ensures status == Okay ==> h == ReadHeader(file, old(pos)).value && pos == old(pos) + h.hsize && bread == old(bread) + h.hsize
    {
      hide Number, Chunk;
      h := Head(0, 0, []);
      var read, magic := ReadInt(4);
      if !read {
        return AtEof, h;
      }
      if magic != MAGIC {
        return Failed, h;
      }
      var hsize, ssize, flags;
      read, hsize := ReadInt(4);
      if !read {
        return AtEof, h;
      }
      read, ssize := ReadInt(4);
      if !read {
        return AtEof, h;
      }
      read, flags := ReadInt(2);
      if !read {
        return AtEof, h;
      }
      if hsize < 16 || hsize > 1024 {
        return Failed, h;
      }
      if pos + (hsize - 14) > |file| {
        return AtEof, h;
      }
      h := Head(hsize, ssize, NameIn(Chunk(file, pos, hsize - 14)));
      pos := pos + (hsize - 14);
      bread := bread + (hsize - 14);
      status := Okay;
    }

    /** Finds the set wanted and reads its tables. */
    method Load(key: Key, dmap: seq<Entry>) returns (status: Status)
      requires DmapOk(dmap) && loaded == map[]
      modifies this
      ensures var r := Fload(file, old(pos), key, dmap); status == StatusOf(r) && (r.Got? ==> Loaded(loaded, bread) == r.value)
    {
      hide DmapOk, ReadTable, ReadHeader;
      var h;
      while true
        invariant loaded == map[] && Fload(file, pos, key, dmap) == Fload(file, old(pos), key, dmap)
        decreases |file| - pos
      {
        bread := 0;
        HeaderHas(file, pos);
        status, h := HdrRead();
        if status != Okay {
          return;
        }
        if Wanted(key, h.name) {
          break;
        }
        pos := pos + Low(h.ssize - h.hsize, 4);
      }
      while bread < h.ssize
        invariant pos <= |file| && ReadTables(file, pos, bread, h.ssize, dmap, loaded) == Fload(file, old(pos), key, dmap)
        decreases |file| - pos
      {
        TableHas(file, pos, bread, dmap);
        status := DataLoad(dmap);
        if status != Okay {
          return;
        }
      }
      status := Okay;
    }
  }

  function StatusOf<T>(r: Outcome<T>): Status {
    match r
    case Eof => AtEof
    case Fatal => Failed
    case Got(_) => Okay
  }

  lemma HeaderHas(file: seq<Byte>, pos: nat)
    ensures ReadHeader(file, pos).Got? ==> 16 <= ReadHeader(file, pos).value.hsize && pos + ReadHeader(file, pos).value.hsize <= |file|
  {
  }

  lemma TableHas(file: seq<Byte>, pos: nat, bread: nat, dmap: seq<Entry>)
    ensures ReadTable(file, pos, bread, dmap).Got? ==> pos + 12 <= ReadTable(file, pos, bread, dmap).value.next <= |file|
  {
  }

  lemma {:induction false} LookupOk(dmap: seq<Entry>, id: int)
    requires DmapOk(dmap) && Lookup(dmap, id) != 0
    ensures IsWidth(Lookup(dmap, id))
  {
    if dmap[0].id != id {
      LookupOk(dmap[1..], id);
    } else {
      assert dmap[0] in dmap;
    }
  }

  lemma NoneRead(file: seq<Byte>, p: nat, w: nat, flags: int, size: int)
    requires IsWidth(w) && p <= |file|
    ensures Converted(ReadElements(file, p, w, 0), flags, size) == []
  {
  }

  lemma OneRead(file: seq<Byte>, p: nat, w: nat, i: nat, flags: int, size: int)
    requires IsWidth(w) && p + i * w + w <= |file|
    ensures p + (i + 1) * w == p + i * w + w
    ensures Converted(ReadElements(file, p, w, i + 1), flags, size)
      == Converted(ReadElements(file, p, w, i), flags, size) + [Convert(Wrap(Number(Chunk(file, p + i * w, w)), w), flags, size)]
  {
  }

  lemma BodyEnds(file: seq<Byte>, p: nat, w: nat, flags: int, n: nat, i: nat, dmap: seq<Entry>)
    requires w == Width(flags) && i < n && p + i * w <= |file| && (i > 0 ==> !Dangling(flags, dmap))
    ensures p + i * w + w > |file| ==> BodyStatus(file, p, flags, n, dmap) == AtEof
    ensures p + i * w + w <= |file| && Dangling(flags, dmap) ==> BodyStatus(file, p, flags, n, dmap) == Failed
  {
    hide Dangling;
    assert n * w == i * w + w + (n - i - 1) * w;
  }

  lemma BodyDone(file: seq<Byte>, p: nat, flags: int, n: nat, dmap: seq<Entry>)
    requires p + n * Width(flags) <= |file| && (n > 0 ==> !Dangling(flags, dmap))
    ensures BodyStatus(file, p, flags, n, dmap) == Okay
  {
    hide Dangling;
    if n > 0 {
      assert n * Width(flags) == Width(flags) + (n - 1) * Width(flags);
    }
  }
}
