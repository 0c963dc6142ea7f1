/** Serialized tables (`ext/flex/tables_shared.h`) and their compression (`ext/flex/tables.c`). */
module TableData {

  type Byte = b: int | 0 <= b < 256

  // ---- integers of 1, 2 and 4 bytes ----

  predicate IsWidth(w: int) {
    w == 1 || w == 2 || w == 4
  }

  /** The number of values of w bytes. */
  function Size(w: int): int {
    if w == 1 then 0x100 else if w == 2 then 0x1_0000 else 0x1_0000_0000
  }

  /** Whether a signed integer of w bytes can hold x. */
  predicate Fits(x: int, w: int) {
    -(Size(w) / 2) <= x < Size(w) / 2
  }

  /** The low w bytes of x. */
  function Low(x: int, w: int): (u: nat)
    ensures u < Size(w)
  {
    if w == 1 then x % 0x100 else if w == 2 then x % 0x1_0000 else x % 0x1_0000_0000
  }

  /** The conversion of x to a signed integer of w bytes. */
  function Wrap(x: int, w: int): (r: int)
    ensures Fits(r, w) && (r == x <==> Fits(x, w))
  {
    if Low(x, w) >= Size(w) / 2 then Low(x, w) - Size(w) else Low(x, w)
  }

  /** x in network byte order. */
  function Bytes(x: int, w: int): (bs: seq<Byte>)
    requires IsWidth(w)
    ensures |bs| == w
  {
    if w == 1 then [x % 0x100]
    else if w == 2 then [x / 0x100 % 0x100, x % 0x100]
    else [x / 0x100_0000 % 0x100, x / 0x1_0000 % 0x100, x / 0x100 % 0x100, x % 0x100]
  }

  lemma BytesAreLow(x: int, w: int)
    requires IsWidth(w)
    ensures Bytes(Low(x, w), w) == Bytes(x, w)
  {
    if w == 4 {
      LowDigits(x);
    } else if w == 2 {
      LowPair(x);
    }
  }

  lemma LowPair(x: int)
    ensures x % 0x1_0000 / 0x100 % 0x100 == x / 0x100 % 0x100 && x % 0x1_0000 % 0x100 == x % 0x100
  {
  }

  lemma LowDigits(x: int)
    ensures var u := x % 0x1_0000_0000;
      && u / 0x100_0000 % 0x100 == x / 0x100_0000 % 0x100 && u / 0x1_0000 % 0x100 == x / 0x1_0000 % 0x100
      && u / 0x100 % 0x100 == x / 0x100 % 0x100 && u % 0x100 == x % 0x100
  {
    var u, q := x % 0x1_0000_0000, x / 0x1_0000_0000;
    assert x == u + 0x1_0000_0000 * q;
    DigitOfSum(u, q);
  }

  lemma DigitOfSum(u: int, q: int)
    ensures var x := u + 0x1_0000_0000 * q;
      && u / 0x100_0000 % 0x100 == x / 0x100_0000 % 0x100 && u / 0x1_0000 % 0x100 == x / 0x1_0000 % 0x100
      && u / 0x100 % 0x100 == x / 0x100 % 0x100 && u % 0x100 == x % 0x100
  {
    DigitAt1(u, q);
    DigitAt2(u, q);
    DigitAt3(u, q);
    ModOfSum(u, 0x100_0000 * q);
  }

  lemma ModOfSum(u: int, q: int)
    ensures (u + 0x100 * q) % 0x100 == u % 0x100
  {
  }

  lemma DigitAt1(u: int, q: int)
    ensures (u + 0x1_0000_0000 * q) / 0x100 % 0x100 == u / 0x100 % 0x100
  {
    assert (u + 0x1_0000_0000 * q) / 0x100 == u / 0x100 + 0x100 * (0x1_0000 * q);
    ModOfSum(u / 0x100, 0x1_0000 * q);
  }

  lemma DigitAt2(u: int, q: int)
    ensures (u + 0x1_0000_0000 * q) / 0x1_0000 % 0x100 == u / 0x1_0000 % 0x100
  {
    assert (u + 0x1_0000_0000 * q) / 0x1_0000 == u / 0x1_0000 + 0x100 * (0x100 * q);
    ModOfSum(u / 0x1_0000, 0x100 * q);
  }

  lemma DigitAt3(u: int, q: int)
    ensures (u + 0x1_0000_0000 * q) / 0x100_0000 % 0x100 == u / 0x100_0000 % 0x100
  {
    assert (u + 0x1_0000_0000 * q) / 0x100_0000 == u / 0x100_0000 + 0x100 * q;
    ModOfSum(u / 0x100_0000, q);
  }

  /** The number that bytes in network order stand for. */
  function Number(bs: seq<Byte>): (n: nat)
    requires IsWidth(|bs|)
    ensures n < Size(|bs|)
  {
    if |bs| == 1 then bs[0]
    else if |bs| == 2 then (bs[0] as int) * 0x100 + bs[1]
    else (bs[0] as int) * 0x100_0000 + (bs[1] as int) * 0x1_0000 + (bs[2] as int) * 0x100 + bs[3]
  }

  lemma NumberOfBytes(x: int, w: int)
    requires IsWidth(w)
    ensures Number(Bytes(x, w)) == Low(x, w)
  {
    if w == 4 {
      FourBytes(x);
    }
  }

  lemma FourBytes(x: int)
    ensures x / 0x1_0000 == x / 0x100 / 0x100 && x / 0x100_0000 == x / 0x1_0000 / 0x100
    ensures x % 0x1_0000_0000 == x / 0x100_0000 % 0x100 * 0x100_0000 + x / 0x1_0000 % 0x100 * 0x1_0000 + x / 0x100 % 0x100 * 0x100 + x % 0x100
  {
  }

  /** What was written as w bytes is read back as the conversion to w bytes. */
  lemma SignedOfBytes(x: int, w: int)
    requires IsWidth(w)
    ensures Wrap(Number(Bytes(x, w)), w) == Wrap(x, w)
  {
    hide Bytes, Number;
    NumberOfBytes(x, w);
  }

  /** Bytes needed to reach the next multiple of 8. */
  function Pad(n: int): (p: nat)
    ensures p < 8 && (n + p) % 8 == 0
  {
    (8 - n % 8) % 8
  }

  // ---- tables ----

  const ID_TRANSITION := 0x0B

  /** The flag bits: YYTD_DATA8, 16 and 32, then YYTD_PTRANS and YYTD_STRUCT. */
  datatype Table = Table(id: int, flags: int, hilen: int, lolen: int, data: seq<int>)

  /** YYTDFLAGS2BYTES. */
  function Width(flags: int): (w: int)
    ensures IsWidth(w)
  {
    if flags % 2 == 1 then 1 else if flags / 2 % 2 == 1 then 2 else 4
  }

  predicate Pointers(flags: int) {
    flags / 8 % 2 == 1
  }

  predicate Structs(flags: int) {
    flags / 16 % 2 == 1
  }

  /** yytbl_calc_total_len, in 32-bit arithmetic. */
  function TotalLen(id: int, hilen: int, lolen: int): int {
    var n := Wrap(lolen, 4);
    var m := if hilen > 0 then Wrap(n * hilen, 4) else n;
    if id == ID_TRANSITION then Wrap(m * 2, 4) else m
  }

  /** A table in memory: its fields and elements fit their types. */
  ghost predicate TableOk(t: Table) {
    && 0 < t.id < Size(2) && 0 <= t.flags < 0x20 && 0 <= t.hilen < Size(4) && 0 <= t.lolen < Size(4)
    && |t.data| == TotalLen(t.id, t.hilen, t.lolen) && (Structs(t.flags) <==> t.id == ID_TRANSITION)
    && forall x :: x in t.data ==> Fits(x, Width(t.flags))
  }

  // ---- choosing the smallest width ----

  /** abs of a 32-bit integer, which leaves the smallest one as it is. */
  function Abs32(x: int): int {
    if x == -0x8000_0000 then x else if x < 0 then -x else x
  }

  /** x can be held in w bytes with either sign. */
  predicate Small(x: int, w: int) {
    Abs32(x) < Size(w) / 2
  }

  /** The smallest width that all elements are small for. */
  method MinIntSize(t: Table) returns (size: int)
    requires TableOk(t)
    ensures IsWidth(size) && forall x :: x in t.data ==> Small(x, size)
    ensures size > 1 ==> exists x :: x in t.data && !Small(x, size / 2)
  {
    var max := 0;
    ghost var at := 0;
    for i := 0 to |t.data|
      invariant max >= 0 && (max > 0 ==> 0 <= at < |t.data| && Abs32(t.data[at]) == max)
      invariant forall j :: 0 <= j < i ==> Abs32(t.data[j]) <= max
    {
      var n := Abs32(t.data[i]);
      assert t.data[i] in t.data;
      if n > max {
        max, at := n, i;
      }
    }
    if max <= 0x7F {
      size := 1;
    } else if max <= 0x7FFF {
      size := 2;
      assert t.data[at] in t.data;
      assert !Small(t.data[at], 1);
    } else {
      size := 4;
      assert !Small(t.data[at], 2);
      assert t.data[at] in t.data;
    }
  }

  datatype Result = Died | Done(table: Table)

  /** The only elements that their own type can hold but are not small for it. */
  ghost predicate Extreme(t: Table) {
    (Width(t.flags) == 1 && -0x80 in t.data) || (Width(t.flags) == 2 && -0x8000 in t.data)
  }

  /** The element that abs leaves negative is in the table, and no other makes it keep its width. */
  ghost predicate Loses(t: Table) {
    Width(t.flags) == 4 && -0x8000_0000 in t.data && forall x :: x in t.data ==> Small(x, 2)
  }

  /**
   Narrows the elements of a table: it gives up exactly if an element is extreme for its own type,
   and otherwise keeps all elements exactly if the table does not lose the smallest integer.
   */
  method Compress(t: Table) returns (r: Result)
    requires TableOk(t)
    ensures r.Died? <==> Extreme(t)
    ensures r.Done? ==> TableOk(r.table) && r.table.(flags := t.flags, data := t.data) == t && |r.table.data| == |t.data|
    ensures r.Done? ==> r.table.flags / 8 == t.flags / 8 && Width(r.table.flags) <= Width(t.flags)
    ensures r.Done? ==> (r.table.data == t.data <==> !Loses(t))
    ensures r.Done? && !Loses(t) ==> Width(r.table.flags) == 1 || exists x :: x in t.data && !Small(x, Width(r.table.flags) / 2)
  {
    var newsz := MinIntSize(t);
    SizesAre(t, newsz);
    if newsz == Width(t.flags) {
      return Done(t);
    }
    if newsz > Width(t.flags) {
      return Died;
    }
    var data := [];
    for i := 0 to |t.data|
      invariant |data| == i && forall j :: 0 <= j < i ==> data[j] == Wrap(t.data[j], newsz)
    {
      data := data + [Wrap(t.data[i], newsz)];
    }
    r := Done(t.(flags := t.flags / 8 * 8 + newsz, data := data));
    Narrowed(t, newsz, data, r.table.flags);
  }

  lemma SizesAre(t: Table, newsz: int)
    requires TableOk(t) && IsWidth(newsz) && forall x :: x in t.data ==> Small(x, newsz)
    requires newsz > 1 ==> exists x :: x in t.data && !Small(x, newsz / 2)
    ensures newsz > Width(t.flags) <==> Extreme(t)
    ensures newsz >= Width(t.flags) ==> !Loses(t)
  {
    var w := Width(t.flags);
    if newsz > 1 {
      var x :| x in t.data && !Small(x, newsz / 2);
      assert Fits(x, w);
    }
  }

  lemma Narrowed(t: Table, newsz: int, data: seq<int>, flags: int)
    requires TableOk(t) && IsWidth(newsz) && newsz < Width(t.flags) && forall x :: x in t.data ==> Small(x, newsz)
    requires |data| == |t.data| && (forall j :: 0 <= j < |data| ==> data[j] == Wrap(t.data[j], newsz)) && flags == t.flags / 8 * 8 + newsz
    ensures TableOk(t.(flags := flags, data := data)) && Width(flags) == newsz && flags / 8 == t.flags / 8
    ensures data == t.data <==> !Loses(t)
  {
    if j :| 0 <= j < |t.data| && t.data[j] == -0x8000_0000 {
      assert Fits(data[j], newsz) && Fits(t.data[j], Width(t.flags));
      assert t.data[j] in t.data && data[j] != t.data[j];
      assert Loses(t);
    } else {
      forall j | 0 <= j < |t.data|
        ensures data[j] == t.data[j]
      {
        assert t.data[j] in t.data;
      }
      assert data == t.data;
    }
  }

  /** Tables that cannot be narrowed, or not without losing an element. */
  lemma NarrowingCanFail()
    ensures exists t :: TableOk(t) && Extreme(t)
    ensures exists t :: TableOk(t) && Loses(t)
  {
    var t, u := Table(1, 1, 0, 1, [-0x80]), Table(1, 4, 0, 1, [-0x8000_0000]);
    assert TableOk(t) && Extreme(t);
    assert u.data[0] == -0x8000_0000;
    assert TableOk(u) && Loses(u);
  }
}
