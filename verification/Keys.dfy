/** Keys are strings of bytes in lexicographic order. */
module Keys {

  type Key = seq<nat>

  predicate Less(a: Key, b: Key) {
    b != [] && (a == [] || a[0] < b[0] || (a[0] == b[0] && Less(a[1..], b[1..])))
  }

  /** a comes before b exactly if b goes on where a ends, or has the greater byte where they first differ. */
  lemma {:induction false} LessIsByBytes(a: Key, b: Key)
    ensures Less(a, b) <==> exists i :: 0 <= i <= |a| && i < |b| && a[..i] == b[..i] && (i == |a| || a[i] < b[i])
  {
    if b != [] && a != [] && a[0] == b[0] {
      LessIsByBytes(a[1..], b[1..]);
      if i :| 0 <= i <= |a| && i < |b| && a[..i] == b[..i] && (i == |a| || a[i] < b[i]) {
        assert i > 0 && a[1..][..i - 1] == a[..i][1..] && b[1..][..i - 1] == b[..i][1..];
      }
      if i :| 0 <= i <= |a[1..]| && i < |b[1..]| && a[1..][..i] == b[1..][..i] && (i == |a[1..]| || a[1..][i] < b[1..][i]) {
        assert a[..i + 1] == [a[0]] + a[1..][..i] && b[..i + 1] == [b[0]] + b[1..][..i];
      }
    } else if b != [] && (a == [] || a[0] < b[0]) {
      assert a[..0] == b[..0];
    } else if i :| 0 <= i <= |a| && i < |b| && a[..i] == b[..i] && (i == |a| || a[i] < b[i]) {
      assert i > 0 && a[..i][0] == b[..i][0];
    }
  }

  lemma {:induction false} LessIrreflexive(a: Key)
    ensures !Less(a, a)
  {
    if a != [] {
      LessIrreflexive(a[1..]);
    }
  }

  lemma {:induction false} LessTransitive(a: Key, b: Key, c: Key)
    requires Less(a, b) && Less(b, c)
    ensures Less(a, c)
  {
    if a != [] && a[0] == b[0] && b[0] == c[0] {
      LessTransitive(a[1..], b[1..], c[1..]);
    }
  }

  lemma LessAsymmetric(a: Key, b: Key)
    requires Less(a, b)
    ensures !Less(b, a)
  {
    if Less(b, a) {
      LessTransitive(a, b, a);
      LessIrreflexive(a);
    }
  }

  lemma {:induction false} LessTotal(a: Key, b: Key)
    ensures a == b || Less(a, b) || Less(b, a)
  {
    if a != [] && b != [] && a[0] == b[0] {
      LessTotal(a[1..], b[1..]);
      assert a == [a[0]] + a[1..] && b == [b[0]] + b[1..];
    }
  }

  // ---- a set of keys as a sorted map holds it (AtomicMap) ----

  datatype Maybe = Nothing | Just(key: Key)

  /** a comes before b in ascending, or else in descending, order. */
  predicate Before(up: bool, a: Key, b: Key) {
    if up then Less(a, b) else Less(b, a)
  }

  lemma BeforeOrders(up: bool)
    ensures forall a :: !Before(up, a, a)
    ensures forall a, b :: a == b || Before(up, a, b) || Before(up, b, a)
    ensures forall a, b, c :: Before(up, a, b) && Before(up, b, c) ==> Before(up, a, c)
  {
    hide Less;
    forall a
      ensures !Before(up, a, a)
    {
      LessIrreflexive(a);
    }
    forall a, b
      ensures a == b || Before(up, a, b) || Before(up, b, a)
    {
      LessTotal(a, b);
    }
    forall a, b, c | Before(up, a, b) && Before(up, b, c)
      ensures Before(up, a, c)
    {
      if up {
        LessTransitive(a, b, c);
      } else {
        LessTransitive(c, b, a);
      }
    }
  }

  /** k lies beyond from, or anywhere if that is Nothing. */
  predicate Beyond(up: bool, from: Maybe, k: Key) {
    from.Just? ==> Before(up, from.key, k)
  }

  /** r is the nearest key of s beyond from, Nothing if there is none. */
  ghost predicate IsNearest(s: set<Key>, up: bool, from: Maybe, r: Maybe) {
    match r
    case Nothing => forall k :: k in s ==> !Beyond(up, from, k)
    case Just(key) => key in s && Beyond(up, from, key) && forall k :: k in s && Beyond(up, from, k) ==> !Before(up, k, key)
  }

  /** The first, last, next and previous key of a sorted map. */
  method Nearest(s: set<Key>, up: bool, from: Maybe) returns (r: Maybe)
    ensures IsNearest(s, up, from, r)
  {
    hide Before;
    BeforeOrders(up);
    r := Nothing;
    var rest := s;
    while rest != {}
      invariant rest <= s && IsNearest(s - rest, up, from, r)
      decreases rest
    {
      var k :| k in rest;
      if Beyond(up, from, k) && (r == Nothing || Before(up, k, r.key)) {
        r := Just(k);
      }
      rest := rest - {k};
    }
  }

  /** Upwards from nowhere the nearest key is the least one, downwards the greatest. */
  lemma NearestIsExtreme(s: set<Key>, up: bool, r: Maybe)
    requires IsNearest(s, up, Nothing, r)
    ensures r == Nothing <==> s == {}
    ensures r.Just? ==> r.key in s && forall k :: k in s && k != r.key ==> if up then Less(r.key, k) else Less(k, r.key)
  {
    hide Less;
    assert forall k :: Beyond(up, Nothing, k);
    if r.Just? {
      forall k | k in s && k != r.key
        ensures if up then Less(r.key, k) else Less(k, r.key)
      {
        LessTotal(k, r.key);
      }
    } else {
      assert forall k :: k in s ==> Beyond(up, Nothing, k);
    }
  }

  /** From a key the nearest one is the next one above it, or below it. */
  lemma NearestIsNext(s: set<Key>, up: bool, from: Key, r: Maybe)
    requires IsNearest(s, up, Just(from), r)
    ensures r == Nothing <==> forall k :: k in s ==> !(if up then Less(from, k) else Less(k, from))
    ensures r.Just? && up ==> r.key in s && Less(from, r.key) && forall k :: k in s ==> !(Less(from, k) && Less(k, r.key))
    ensures r.Just? && !up ==> r.key in s && Less(r.key, from) && forall k :: k in s ==> !(Less(r.key, k) && Less(k, from))
  {
    hide Less;
    assert forall k :: Beyond(up, Just(from), k) <==> Before(up, from, k);
  }

  /** The nearest key of a set is the nearest of any part that has it, and none is near none. */
  lemma NearestOfPart(s: set<Key>, t: set<Key>, up: bool, from: Maybe, r: Maybe)
    requires IsNearest(s, up, from, r) && t <= s && (r.Just? ==> r.key in t)
    ensures IsNearest(t, up, from, r)
  {
  }

  /** rest is what is left of all after the keys between from and r have been passed over, and r is its nearest. */
  ghost predicate Passed(all: set<Key>, rest: set<Key>, up: bool, from: Maybe, r: Maybe) {
    && rest <= all && IsNearest(rest, up, from, r)
    && forall k :: k in all && k !in rest && r.Just? ==> Before(up, k, r.key)
  }

  lemma PassedOne(all: set<Key>, rest: set<Key>, up: bool, from: Maybe, key: Key, next: Maybe)
    requires Passed(all, rest, up, from, Just(key)) && IsNearest(all, up, Just(key), next)
    ensures Passed(all, rest - {key}, up, from, next) && key in rest
  {
    hide Before;
    BeforeOrders(up);
  }

  lemma PassedNone(all: set<Key>, up: bool, from: Maybe, r: Maybe)
    requires IsNearest(all, up, from, r)
    ensures Passed(all, all, up, from, r)
  {
  }

  lemma PassedAll(all: set<Key>, rest: set<Key>, s: set<Key>, up: bool, from: Maybe, r: Maybe)
    requires Passed(all, rest, up, from, r) && s <= rest && (r.Just? ==> r.key in s)
    ensures IsNearest(s, up, from, r)
  {
    NearestOfPart(rest, s, up, from, r);
  }
}
