/** The entry list of the timed queue, as a value.

    The source keeps a `std::list` of elements; new elements are pushed on
    the front and expiry is checked on the back. Here the list is a
    sequence whose index 0 is the front (the newest element) and whose last
    index is the back (the oldest element). */
module Entries {

  /** One queued element: its key, the instant it expires, its payload. */
  datatype Element<K, I> = Element(key: K, time: int, info: I)

  /** The back of a non-empty list: the element the consumer inspects. */
  function Last<K, I>(l: seq<Element<K, I>>): Element<K, I>
    requires |l| > 0
  {
    l[|l| - 1]
  }

  /** The set of keys that occur in the list. */
  function Keys<K, I>(l: seq<Element<K, I>>): set<K>
  {
    set i | 0 <= i < |l| :: l[i].key
  }

  /** At most one element per key. */
  ghost predicate UniqueKeys<K, I>(l: seq<Element<K, I>>)
  {
    forall i, j :: 0 <= i < |l| && 0 <= j < |l| && l[i].key == l[j].key ==> i == j
  }

  /** Expiry times never increase from the front to the back, so the back
      expires first. */
  ghost predicate NonIncreasing<K, I>(l: seq<Element<K, I>>)
  {
    forall i, j :: 0 <= i <= j < |l| ==> l[j].time <= l[i].time
  }

  /** `x` stands nearer the front than `y`: `y` was inserted earlier and
      is consumed before `x`. */
  ghost predicate Precedes<K, I>(l: seq<Element<K, I>>, x: Element<K, I>, y: Element<K, I>)
  {
    exists a, b :: 0 <= a < b < |l| && l[a] == x && l[b] == y
  }

  /** The sequence with position `i` taken out (`std::list::erase`
      through an iterator). */
  function Erase<T>(l: seq<T>, i: nat): (r: seq<T>)
    requires i < |l|
    ensures |r| == |l| - 1
    ensures forall j :: 0 <= j < |r| ==> r[j] == if j < i then l[j] else l[j + 1]
  {
    l[..i] + l[i + 1..]
  }

  /** The list with every element of key `k` dropped, the others kept in
      order: what removing a key by name does to the list. */
  function Without<K(==), I>(l: seq<Element<K, I>>, k: K): (r: seq<Element<K, I>>)
    ensures |r| <= |l|
    ensures forall j :: 0 <= j < |r| ==> r[j].key != k
  {
    if l == [] then []
    else if l[0].key == k then Without(l[1..], k)
    else [l[0]] + Without(l[1..], k)
  }

  /** The list after a re-queue of `e`: the old entry for `e.key`, if any,
      is removed and `e` goes on the front. */
  function Pushed<K(==), I>(l: seq<Element<K, I>>, e: Element<K, I>): (r: seq<Element<K, I>>)
    ensures |r| > 0 && r[0] == e
    ensures forall j :: 0 < j < |r| ==> r[j].key != e.key
  {
    [e] + Without(l, e.key)
  }

  /** What removing a key keeps: exactly the elements of other keys. */
  lemma {:induction false} WithoutMembers<K, I>(l: seq<Element<K, I>>, k: K, x: Element<K, I>)
    ensures x in Without(l, k) <==> x in l && x.key != k
  {
    if l != [] {
      WithoutMembers(l[1..], k, x);
      assert l == [l[0]] + l[1..];
    }
  }

  /** The keys of a non-empty list: its front key and the keys behind it. */
  lemma KeysCons<K, I>(l: seq<Element<K, I>>)
    requires |l| > 0
    ensures Keys(l) == {l[0].key} + Keys(l[1..])
  {
    forall k | k in Keys(l)
      ensures k in {l[0].key} + Keys(l[1..])
    {
      var j :| 0 <= j < |l| && l[j].key == k;
      if j > 0 {
        assert l[1..][j - 1] == l[j];
      }
    }
    forall k | k in Keys(l[1..])
      ensures k in Keys(l)
    {
      var j :| 0 <= j < |l[1..]| && l[1..][j].key == k;
      assert l[j + 1] == l[1..][j];
    }
  }

  /** Behind the front of a list with unique keys, the keys are unique and
      the front key does not occur again. */
  lemma UniqueTail<K, I>(l: seq<Element<K, I>>)
    requires UniqueKeys(l) && |l| > 0
    ensures UniqueKeys(l[1..]) && l[0].key !in Keys(l[1..])
  {
    var t := l[1..];
    forall a, b | 0 <= a < |t| && 0 <= b < |t| && t[a].key == t[b].key
      ensures a == b
    {
      assert t[a] == l[a + 1] && t[b] == l[b + 1];
    }
    forall j | 0 <= j < |t|
      ensures t[j].key != l[0].key
    {
      assert t[j] == l[j + 1];
    }
  }

  /** A key not yet in the list can go on the front without breaking
      uniqueness. */
  lemma ConsUnique<K, I>(l: seq<Element<K, I>>, e: Element<K, I>)
    requires UniqueKeys(l) && e.key !in Keys(l)
    ensures UniqueKeys([e] + l)
  {
    forall j | 0 <= j < |l|
      ensures l[j].key != e.key
    {
      assert l[j].key in Keys(l);
    }
    var r := [e] + l;
    forall a, b | 0 <= a < |r| && 0 <= b < |r| && r[a].key == r[b].key
      ensures a == b
    {
      if a > 0 && b > 0 {
        assert r[a] == l[a - 1] && r[b] == l[b - 1];
      }
    }
  }

  /** Removing a key that is absent leaves the list as it was. */
  lemma {:induction false} WithoutAbsent<K, I>(l: seq<Element<K, I>>, k: K)
    requires k !in Keys(l)
    ensures Without(l, k) == l
  {
    if l != [] {
      KeysCons(l);
      WithoutAbsent(l[1..], k);
      assert l == [l[0]] + l[1..];
    }
  }

  /** Removing the key of the element at position `i` of a list with unique
      keys erases exactly that position. */
  lemma {:induction false} WithoutAt<K, I>(l: seq<Element<K, I>>, i: nat, k: K)
    requires UniqueKeys(l) && i < |l| && l[i].key == k
    ensures Without(l, k) == Erase(l, i)
  {
    UniqueTail(l);
    if i == 0 {
      WithoutAbsent(l[1..], k);
    } else {
      assert l[0].key != k;
      var t := l[1..];
      WithoutAt(t, i - 1, k);
      assert [l[0]] + Erase(t, i - 1) == Erase(l, i);
    }
  }

  /** Erasing a position keeps the keys unique. */
  lemma EraseUnique<K, I>(l: seq<Element<K, I>>, i: nat)
    requires UniqueKeys(l) && i < |l|
    ensures UniqueKeys(Erase(l, i))
  {
    var r := Erase(l, i);
    forall a, b | 0 <= a < |r| && 0 <= b < |r| && r[a].key == r[b].key
      ensures a == b
    {
      var a' := if a < i then a else a + 1;
      var b' := if b < i then b else b + 1;
      assert l[a'].key == l[b'].key;
    }
  }

  /** Erasing a position keeps the expiry times in order. */
  lemma EraseNonIncreasing<K, I>(l: seq<Element<K, I>>, i: nat)
    requires NonIncreasing(l) && i < |l|
    ensures NonIncreasing(Erase(l, i))
  {
    var r := Erase(l, i);
    forall a, b | 0 <= a <= b < |r|
      ensures r[b].time <= r[a].time
    {
      var a' := if a < i then a else a + 1;
      var b' := if b < i then b else b + 1;
      assert r[a] == l[a'] && r[b] == l[b'];
    }
  }

  /** Erasing an element other than `x` and `y` keeps their relative order. */
  lemma EraseKeepsOrder<K, I>(l: seq<Element<K, I>>, i: nat, x: Element<K, I>, y: Element<K, I>)
    requires i < |l| && Precedes(l, x, y) && l[i] != x && l[i] != y
    ensures Precedes(Erase(l, i), x, y)
  {
    var a, b :| 0 <= a < b < |l| && l[a] == x && l[b] == y;
    var r := Erase(l, i);
    var a' := if a < i then a else a - 1;
    var b' := if b < i then b else b - 1;
    assert r[a'] == x && r[b'] == y;
  }

  /** Removing a key a second time changes nothing more. */
  lemma {:induction false} WithoutIdempotent<K, I>(l: seq<Element<K, I>>, k: K)
    ensures Without(Without(l, k), k) == Without(l, k)
  {
    var w := Without(l, k);
    forall j | 0 <= j < |w|
      ensures w[j].key != k
    {
    }
    WithoutAbsent(w, k);
  }

  /** Removing a key after re-queueing it leaves the list as removing it
      alone would: the re-queued element is gone and so is the old one. */
  lemma RemoveUndoesReQueue<K, I>(l: seq<Element<K, I>>, e: Element<K, I>)
    ensures Without(Pushed(l, e), e.key) == Without(l, e.key)
  {
    var w := Without(l, e.key);
    assert Pushed(l, e) == [e] + w;
    assert ([e] + w)[1..] == w;
    WithoutIdempotent(l, e.key);
  }

  /** Removing a key keeps the keys unique. */
  lemma WithoutUnique<K, I>(l: seq<Element<K, I>>, k: K)
    requires UniqueKeys(l)
    ensures UniqueKeys(Without(l, k))
  {
    if k in Keys(l) {
      var i :| 0 <= i < |l| && l[i].key == k;
      WithoutAt(l, i, k);
      EraseUnique(l, i);
    } else {
      WithoutAbsent(l, k);
    }
  }

  /** A re-queue keeps at most one element per key: the old entry for the
      key is gone and only the new front element carries it. */
  lemma PushedUnique<K, I>(l: seq<Element<K, I>>, e: Element<K, I>)
    requires UniqueKeys(l)
    ensures UniqueKeys(Pushed(l, e))
  {
    WithoutUnique(l, e.key);
    var w := Without(l, e.key);
    var r := Pushed(l, e);
    assert r == [e] + w;
    forall a, b | 0 <= a < |r| && 0 <= b < |r| && r[a].key == r[b].key
      ensures a == b
    {
      if a > 0 && b > 0 {
        assert r[a] == w[a - 1] && r[b] == w[b - 1];
      }
    }
  }

  /** After a re-queue the key set is the old one plus the re-queued key. */
  lemma PushedKeys<K, I>(l: seq<Element<K, I>>, e: Element<K, I>)
    ensures Keys(Pushed(l, e)) == Keys(l) + {e.key}
  {
    var w := Without(l, e.key);
    var r := Pushed(l, e);
    forall k | k in Keys(l) + {e.key}
      ensures k in Keys(r)
    {
      if k != e.key {
        var j :| 0 <= j < |l| && l[j].key == k;
        WithoutMembers(l, e.key, l[j]);
        var m :| 0 <= m < |w| && w[m] == l[j];
        assert r[m + 1] == l[j];
      } else {
        assert r[0].key == k;
      }
    }
    forall k | k in Keys(r)
      ensures k in Keys(l) + {e.key}
    {
      var j :| 0 <= j < |r| && r[j].key == k;
      if j > 0 {
        assert r[j] == w[j - 1];
        WithoutMembers(l, e.key, r[j]);
        var m :| 0 <= m < |l| && l[m] == r[j];
      }
    }
  }

  /** An element that expires no earlier than the front can go on the
      front without breaking the order of expiry times. */
  lemma ConsNonIncreasing<K, I>(l: seq<Element<K, I>>, e: Element<K, I>)
    requires NonIncreasing(l)
    requires l != [] ==> l[0].time <= e.time
    ensures NonIncreasing([e] + l)
  {
    var r := [e] + l;
    forall a, b | 0 <= a <= b < |r|
      ensures r[b].time <= r[a].time
    {
      if a == 0 && b > 0 {
        assert r[b] == l[b - 1] && l[b - 1].time <= l[0].time;
      } else if a > 0 {
        assert r[a] == l[a - 1] && r[b] == l[b - 1];
      }
    }
  }

  /** With a fixed delay and a clock that does not go back, the new element
      expires no earlier than any queued one, so the order of expiry times
      survives a re-queue. */
  lemma PushedNonIncreasing<K, I>(l: seq<Element<K, I>>, e: Element<K, I>)
    requires UniqueKeys(l) && NonIncreasing(l)
    requires l != [] ==> l[0].time <= e.time
    ensures NonIncreasing(Pushed(l, e))
  {
    var w := Without(l, e.key);
    if e.key in Keys(l) {
      var i :| 0 <= i < |l| && l[i].key == e.key;
      WithoutAt(l, i, e.key);
      EraseNonIncreasing(l, i);
    } else {
      WithoutAbsent(l, e.key);
    }
    var r := Pushed(l, e);
    forall a, b | 0 <= a <= b < |r|
      ensures r[b].time <= r[a].time
    {
      if a == 0 && b > 0 {
        assert r[b] == w[b - 1];
        WithoutMembers(l, e.key, r[b]);
        var m :| 0 <= m < |l| && l[m] == r[b];
        assert l[m].time <= l[0].time;
      } else if a > 0 {
        assert r[a] == w[a - 1] && r[b] == w[b - 1];
      }
    }
  }

  /** A re-queue puts the new element behind every surviving element in
      consumption order. */
  lemma PushedIsNewest<K, I>(l: seq<Element<K, I>>, e: Element<K, I>, x: Element<K, I>)
    requires x in l && x.key != e.key
    ensures Precedes(Pushed(l, e), e, x)
  {
    var w := Without(l, e.key);
    WithoutMembers(l, e.key, x);
    var m :| 0 <= m < |w| && w[m] == x;
    assert Pushed(l, e)[m + 1] == x;
  }

  /** A re-queue keeps the relative order of the elements it does not
      touch. */
  lemma PushedKeepsOrder<K, I>(l: seq<Element<K, I>>, e: Element<K, I>, x: Element<K, I>, y: Element<K, I>)
    requires UniqueKeys(l) && Precedes(l, x, y) && x.key != e.key && y.key != e.key
    ensures Precedes(Pushed(l, e), x, y)
  {
    WithoutKeepsOrder(l, e.key, x, y);
    var w := Without(l, e.key);
    var a, b :| 0 <= a < b < |w| && w[a] == x && w[b] == y;
    var r := Pushed(l, e);
    assert r == [e] + w;
    assert r[a + 1] == x && r[b + 1] == y;
  }

  /** Removing a key keeps the relative order of the other elements. */
  lemma WithoutKeepsOrder<K, I>(l: seq<Element<K, I>>, k: K, x: Element<K, I>, y: Element<K, I>)
    requires UniqueKeys(l) && Precedes(l, x, y) && x.key != k && y.key != k
    ensures Precedes(Without(l, k), x, y)
  {
    if k in Keys(l) {
      var i :| 0 <= i < |l| && l[i].key == k;
      WithoutAt(l, i, k);
      EraseKeepsOrder(l, i, x, y);
    } else {
      WithoutAbsent(l, k);
    }
  }

  /** The back of the list comes after every other element in it: it is
      the oldest surviving insertion. */
  lemma BackIsOldest<K, I>(l: seq<Element<K, I>>, x: Element<K, I>)
    requires |l| > 0 && x in l && x != Last(l)
    ensures Precedes(l, x, Last(l))
  {
    var a :| 0 <= a < |l| && l[a] == x;
    assert a < |l| - 1;
  }

  /** Taking the back off keeps the relative order of what remains. */
  lemma PopKeepsOrder<K, I>(l: seq<Element<K, I>>, x: Element<K, I>, y: Element<K, I>)
    requires |l| > 0 && Precedes(l, x, y) && y != Last(l)
    ensures Precedes(l[..|l| - 1], x, y)
  {
    var a, b :| 0 <= a < b < |l| && l[a] == x && l[b] == y;
    assert b < |l| - 1;
    assert l[..|l| - 1][a] == x && l[..|l| - 1][b] == y;
  }

  /** Consumption order is a strict order when keys are unique. */
  lemma PrecedesAsymmetric<K, I>(l: seq<Element<K, I>>, x: Element<K, I>, y: Element<K, I>)
    requires UniqueKeys(l) && Precedes(l, x, y)
    ensures !Precedes(l, y, x)
  {
    var a, b :| 0 <= a < b < |l| && l[a] == x && l[b] == y;
    forall c, d | 0 <= c < d < |l| && l[c] == y
      ensures l[d] != x
    {
      assert l[c].key == l[b].key;
      assert c == b && a != d;
      assert l[a].key != l[d].key;
    }
  }

  /** In a list ordered by expiry, an element consumed earlier expires no
      later. */
  lemma PrecedesExpiresFirst<K, I>(l: seq<Element<K, I>>, x: Element<K, I>, y: Element<K, I>)
    requires NonIncreasing(l) && Precedes(l, x, y)
    ensures y.time <= x.time
  {
    var a, b :| 0 <= a < b < |l| && l[a] == x && l[b] == y;
  }

  /** In a list ordered by expiry, the back is the earliest to expire; if it
      has not expired, nothing has. */
  lemma BackIsEarliest<K, I>(l: seq<Element<K, I>>, now: int)
    requires NonIncreasing(l) && |l| > 0
    ensures forall x :: x in l ==> Last(l).time <= x.time
    ensures !(now > Last(l).time) ==> forall x :: x in l ==> !(now > x.time)
  {
  }
}
