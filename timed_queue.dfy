/** `WCDB::TimedQueue<Key, Info>`: a fixed-delay timed queue.

    Each operation below but `ConsumeWhenExpired` is one critical section
    of the source (or, for `notify`, one unlocked step), run as one atomic
    step; `ConsumeWhenExpired` runs several passes of the expiry check with
    no other step between them. The mutex, the condition variable and the
    callback are not modelled. Time is an explicit `now` argument in one
    unit throughout. */
module TimedQueueModel {
  import opened Wrappers
  import opened Entries
  import opened KeyIndex

  /** One pass of the empty-list check at the start of `waitUntilExpired`:
      the consumer would block on the condition variable, return because
      the break flag is set, or go on to the expiry check. */
  datatype WaitOutcome = Blocked | Shutdown | Ready

  class TimedQueue<K(==), I> {
    /** `m_delay`: the fixed delay added to the insertion time. */
    const delay: int
    /** `m_list`: index 0 is the front (newest), the last index the back. */
    var list: seq<Element<K, I>>
    /** The list nodes holding the elements: `nodes[i]` is the handle of
        the node of `list[i]`, which is what an iterator into `m_list`
        designates. */
    var nodes: seq<int>
    /** The handle the next node pushed on the list receives; no node ever
        had it, as no live node shares the address of a new one. */
    var next: int
    /** `m_map`: each key to the node of its element. */
    var index: map<K, int>
    /** `m_break`: set by `notify` to stop a consumer waiting on an empty
        queue. */
    var brk: bool
    /** The latest time seen by `ReQueue`: `steady_clock` never goes back,
        so every later insertion happens at this time or after. */
    ghost var clock: int

    /** The object invariant: one element per key, one distinct node per
        element, the map is exactly the index of the list (see
        `IndexPoints`), and since all expiry times come from one delay and a
        clock that does not go back, the times do not increase from front
        to back and the front, the latest, does not exceed
        `clock + delay`. */
    ghost predicate Valid()
      reads this
    {
      && |nodes| == |list|
      && UniqueKeys(list)
      && Handles(nodes, next)
      && index == IndexOf(list, nodes)
      && NonIncreasing(list)
      && (list != [] ==> list[0].time <= clock + delay)
    }

    /** `TimedQueue(int delay)`: empty list, empty map, break flag clear. */
    constructor (delay: int)
      ensures Valid()
      ensures this.delay == delay && list == [] && nodes == [] && index == map[] && !brk
      ensures next == 0 && clock == 0
    {
      this.delay := delay;
      list := [];
      nodes := [];
      next := 0;
      index := map[];
      brk := false;
      clock := 0;
    }

    /** `unsafeRemove`: if the key is present, follows its iterator, erases
        that node from the list and the key from the map; otherwise does
        nothing. Every other key keeps its node. */
    method UnsafeRemove(key: K)
      requires Valid()
      modifies this
      ensures Valid() && brk == old(brk) && clock == old(clock) && next == old(next)
      ensures list == Without(old(list), key)
      ensures index == old(index) - {key}
      ensures key !in old(index) ==> list == old(list) && nodes == old(nodes)
      ensures forall i :: 0 <= i < |old(list)| && old(list)[i].key == key ==>
        list == Erase(old(list), i) && nodes == Erase(old(nodes), i)
    {
      if key in index {
        IndexPoints(list, nodes, next, key);
        var pos := Find(nodes, index[key]);
        IndexOfErase(list, nodes, pos);
        WithoutAt(list, pos, key);
        EraseUnique(list, pos);
        EraseNonIncreasing(list, pos);
        HandlesErase(nodes, next, pos);
        forall i | 0 <= i < |list| && list[i].key == key
          ensures i == pos
        {
        }
        list := Erase(list, pos);
        nodes := Erase(nodes, pos);
        index := index - {key};
      } else {
        IndexOfKeys(list, nodes);
        WithoutAbsent(list, key);
      }
    }

    /** `remove`: `unsafeRemove` under the lock. */
    method Remove(key: K)
      requires Valid()
      modifies this
      ensures Valid() && brk == old(brk) && clock == old(clock) && next == old(next)
      ensures list == Without(old(list), key)
      ensures index == old(index) - {key}
      ensures key !in old(index) ==> list == old(list) && nodes == old(nodes)
      ensures forall i :: 0 <= i < |old(list)| && old(list)[i].key == key ==>
        list == Erase(old(list), i) && nodes == Erase(old(nodes), i)
    {
      UnsafeRemove(key);
    }

    /** `reQueue`: drops any element for `key`, pushes a new element that
        expires at `now + delay` on the front in a new node and maps the key
        to that node; `signal` is whether the list was empty before, which
        is when the source wakes the consumer. */
    method ReQueue(key: K, info: I, now: nat) returns (signal: bool)
      requires Valid() && clock <= now
      modifies this
      ensures Valid() && brk == old(brk) && clock == now && next == old(next) + 1
      ensures signal <==> old(list) == []
      ensures list == Pushed(old(list), Element(key, now + delay, info))
      ensures index == old(index)[key := old(next)]
      ensures key !in old(index) ==> nodes == [old(next)] + old(nodes)
      ensures forall i :: 0 <= i < |old(list)| && old(list)[i].key == key ==>
        nodes == [old(next)] + Erase(old(nodes), i)
    {
      signal := list == [];
      UnsafeRemove(key);
      PushFront(Element(key, now + delay, info), now);
    }

    /** `m_list.push_front` followed by `m_map.insert`, for an element of a
        key that is not queued and created at time `now`: the element
        becomes the front, in a node with a fresh handle, and its key maps
        to that node. */
    method PushFront(element: Element<K, I>, now: nat)
      requires Valid() && element.key !in index
      requires clock <= now && element.time == now + delay
      modifies this
      ensures Valid() && brk == old(brk) && clock == now && next == old(next) + 1
      ensures list == [element] + old(list) && nodes == [old(next)] + old(nodes)
      ensures index == old(index)[element.key := old(next)]
    {
      IndexOfKeys(list, nodes);
      ConsUnique(list, element);
      ConsNonIncreasing(list, element);
      HandlesPush(nodes, next);
      assert ([element] + list)[1..] == list && ([next] + nodes)[1..] == nodes;
      list := [element] + list;
      nodes := [next] + nodes;
      index := index[element.key := next];
      next := next + 1;
      clock := now;
    }

    /** `notify`: sets the break flag and changes nothing else. Whatever the
        flag was before, the state afterwards is the same, so a second call
        has no further effect. It runs here between whole `WaitStep` passes
        only; the source takes no lock, so it can also fall between the
        flag check and the wait, which is not modelled. */
    method Notify()
      requires Valid()
      modifies this
      ensures Valid() && brk
      ensures list == old(list) && nodes == old(nodes) && index == old(index)
      ensures next == old(next) && clock == old(clock)
    {
      brk := true;
    }

    /** One pass of the loop that opens `waitUntilExpired`: on an empty list
        the consumer blocks unless the break flag is set, in which case it
        returns with nothing; on a non-empty list it goes on. */
    method WaitStep() returns (w: WaitOutcome)
      ensures w == Ready <==> list != []
      ensures w == Shutdown <==> list == [] && brk
      ensures w == Blocked <==> list == [] && !brk
    {
      if list == [] {
        if !brk {
          w := Blocked;
        } else {
          w := Shutdown;
        }
      } else {
        w := Ready;
      }
    }

    /** The expiry check of `waitUntilExpired` as the source writes it: it
        reads the back of the list without checking that the list is
        non-empty, which `std::list::back` demands. */
    method TryConsumeAsWritten(now: nat) returns (r: Option<(K, I)>)
      requires Valid() && list != []
      modifies this
      ensures Valid() && brk == old(brk) && clock == old(clock) && next == old(next)
      ensures now > Last(old(list)).time ==>
        && r == Some((Last(old(list)).key, Last(old(list)).info))
        && list == old(list)[..|old(list)| - 1]
        && nodes == old(nodes)[..|old(list)| - 1]
        && index == old(index) - {Last(old(list)).key}
      ensures !(now > Last(old(list)).time) ==>
        r == None && list == old(list) && nodes == old(nodes) && index == old(index)
    {
      var element := list[|list| - 1];
      if now > element.time {
        IndexOfPop(list, nodes);
        HandlesPop(nodes, next);
        list := list[..|list| - 1];
        nodes := nodes[..|nodes| - 1];
        index := index - {element.key};
        r := Some((element.key, element.info));
      } else {
        r := None;
      }
    }

    /** The expiry check of `waitUntilExpired`, with the emptiness check it
        needs: the back element is popped from the list and the map, and its
        key and payload returned, only when `now` is strictly past its
        expiry time; otherwise nothing changes. When nothing is returned,
        no element has expired; when one is, it was the earliest to
        expire. */
    method TryConsume(now: nat) returns (r: Option<(K, I)>)
      requires Valid()
      modifies this
      ensures Valid() && brk == old(brk) && clock == old(clock) && next == old(next)
      ensures old(list) != [] && now > Last(old(list)).time ==>
        && r == Some((Last(old(list)).key, Last(old(list)).info))
        && list == old(list)[..|old(list)| - 1]
        && nodes == old(nodes)[..|old(list)| - 1]
        && index == old(index) - {Last(old(list)).key}
        && forall x :: x in old(list) ==> Last(old(list)).time <= x.time
      ensures !(old(list) != [] && now > Last(old(list)).time) ==>
        && r == None && list == old(list) && nodes == old(nodes) && index == old(index)
        && forall x :: x in list ==> !(now > x.time)
    {
      if list == [] {
        r := None;
        return;
      }
      BackIsEarliest(list, now);
      var element := list[|list| - 1];
      if now > element.time {
        IndexOfPop(list, nodes);
        HandlesPop(nodes, next);
        list := list[..|list| - 1];
        nodes := nodes[..|nodes| - 1];
        index := index - {element.key};
        r := Some((element.key, element.info));
      } else {
        r := None;
      }
    }

    /** The retry loop of `waitUntilExpired`, entered once the wait loop has
        seen a non-empty list: `readings` are the successive values of
        `steady_clock::now()`, one per pass. Each pass is `TryConsume`; the
        loop stops at the first reading strictly past the back's expiry,
        pops the back and returns its key and payload, and `passes` counts
        the passes made. If no reading is past it, nothing changes. */
    method ConsumeWhenExpired(readings: seq<nat>) returns (r: Option<(K, I)>, passes: nat)
      requires Valid() && list != []
      modifies this
      ensures Valid() && brk == old(brk) && clock == old(clock) && next == old(next)
      ensures passes <= |readings|
      ensures r.Some? <==> exists j :: 0 <= j < |readings| && readings[j] > Last(old(list)).time
      ensures r.Some? ==>
        && 0 < passes && readings[passes - 1] > Last(old(list)).time
        && (forall j :: 0 <= j < passes - 1 ==> !(readings[j] > Last(old(list)).time))
        && r == Some((Last(old(list)).key, Last(old(list)).info))
        && list == old(list)[..|old(list)| - 1]
        && nodes == old(nodes)[..|old(list)| - 1]
        && index == old(index) - {Last(old(list)).key}
      ensures r.None? ==>
        && passes == |readings|
        && list == old(list) && nodes == old(nodes) && index == old(index)
    {
      var back := Last(list);
      r := None;
      passes := 0;
      while r.None? && passes < |readings|
        invariant passes <= |readings|
        invariant Valid() && brk == old(brk) && clock == old(clock) && next == old(next)
        invariant r.None? ==>
          && list == old(list) && nodes == old(nodes) && index == old(index)
          && forall j :: 0 <= j < passes ==> !(readings[j] > back.time)
        invariant r.Some? ==>
          && 0 < passes && readings[passes - 1] > back.time
          && (forall j :: 0 <= j < passes - 1 ==> !(readings[j] > back.time))
          && r == Some((back.key, back.info))
          && list == old(list)[..|old(list)| - 1]
          && nodes == old(nodes)[..|old(list)| - 1]
          && index == old(index) - {back.key}
        decreases |readings| - passes
      {
        r := TryConsume(readings[passes]);
        passes := passes + 1;
      }
    }
  }
}
