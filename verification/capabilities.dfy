/**
 * The capability list of a NETCONF session (`struct nc_cpblts` in
 * src/session.c): a growable array of capability URIs with a logical size
 * `items`, a capacity `list_size` and a single shared iteration cursor.
 * Capacity is an abstract number: the array's memory is not modelled.
 */
module Capabilities {
  import opened Wrappers

  /** Capacity a new list starts with. */
  const InitialListSize: nat := 10

  const Base10: string := "urn:ietf:params:netconf:base:1.0"
  const Base11: string := "urn:ietf:params:netconf:base:1.1"
  const WritableRunning: string := "urn:ietf:params:netconf:capability:writable-running:1.0"
  const Candidate: string := "urn:ietf:params:netconf:capability:candidate:1.0"
  const Startup: string := "urn:ietf:params:netconf:capability:startup:1.0"

  /**
   * `slots` are `list[0 .. items)`, so `items == |slots|`; a slot holds `None`
   * (a NULL pointer) once a removal has emptied it. `listSize` is the
   * capacity and `iter` the cursor of `nc_cpblts_iter_next`.
   */
  datatype Cpblts = Cpblts(slots: seq<Option<string>>, listSize: nat, iter: nat)
  {
    /** The consistency condition add and remove check before they touch the list. */
    predicate Consistent() {
      |slots| <= listSize
    }

    /** The invariant the capacity doubling is meant to keep: there is always a free slot. */
    predicate HasRoom() {
      |slots| < listSize
    }
  }

  /** What one call of `nc_cpblts_iter_next` hands back. */
  datatype Next =
    | End                 // NULL: the cursor is past the last item
    | Item(cap: string)   // a copy of the capability under the cursor
    | Hole                // the slot under the cursor is NULL; the source passes it to strdup

  /** Capabilities as the slots a list stores them in. */
  function Filled(xs: seq<string>): (r: seq<Option<string>>)
    ensures |r| == |xs|
    ensures forall i :: 0 <= i < |xs| ==> r[i] == Some(xs[i])
  {
    if xs == [] then [] else [Some(xs[0])] + Filled(xs[1..])
  }

  /** The capabilities a list holds, NULL slots skipped, in slot order. */
  function Present(slots: seq<Option<string>>): seq<string> {
    if slots == [] then []
    else (if slots[0].Some? then [slots[0].value] else []) + Present(slots[1..])
  }

  /** What iteration reports for one slot. */
  function AsNext(slot: Option<string>): Next {
    if slot.Some? then Item(slot.value) else Hole
  }

  function AsItems(xs: seq<string>): seq<Next> {
    if xs == [] then [] else [Item(xs[0])] + AsItems(xs[1..])
  }

  /** Store a copy of `cap` at index `items`, count it, and double the capacity when the count reaches it. */
  function Push(c: Cpblts, cap: string): (r: Cpblts)
    ensures r.slots == c.slots + [Some(cap)] && r.iter == c.iter
    ensures c.listSize <= r.listSize
    ensures c.HasRoom() ==> r.HasRoom()
  {
    var items := |c.slots| + 1;
    Cpblts(c.slots + [Some(cap)], if items == c.listSize then 2 * c.listSize else c.listSize, c.iter)
  }

  function PushAll(c: Cpblts, xs: seq<string>): (r: Cpblts)
    ensures r.slots == c.slots + Filled(xs) && r.iter == c.iter
    ensures c.HasRoom() ==> r.HasRoom()
    ensures c.listSize == Grown(|c.slots|, InitialListSize) ==> r.listSize == Grown(|r.slots|, InitialListSize)
    decreases |xs|
  {
    if xs == [] then c
    else
      AppendFilled(c.slots, xs);
      GrownStep(|c.slots|, InitialListSize);
      PushAll(Push(c, xs[0]), xs[1..])
  }

  /**
   * The capacity a list starting at `size` has once it holds `n` items: the
   * capacity doubles each time the count reaches it, so it is the first
   * doubling of `size` above `n`.
   */
  function Grown(n: nat, size: nat): (r: nat)
    requires size > 0
    ensures n < r && size <= r
    decreases n + 1 - size
  {
    if n < size then size else Grown(n, 2 * size)
  }

  /** One more item doubles the capacity exactly when the count reaches it. */
  lemma {:induction false} GrownStep(n: nat, size: nat)
    requires size > 0
    ensures Grown(n + 1, size) == if n + 1 == Grown(n, size) then 2 * Grown(n, size) else Grown(n, size)
    decreases n + 1 - size
  {
    if n + 1 < size {
    } else if n + 1 == size {
      assert Grown(n + 1, size) == Grown(n + 1, 2 * size) == 2 * size;
    } else {
      GrownStep(n, 2 * size);
    }
  }

  lemma AppendFilled(slots: seq<Option<string>>, xs: seq<string>)
    requires xs != []
    ensures slots + [Some(xs[0])] + Filled(xs[1..]) == slots + Filled(xs)
  {
    assert Filled(xs) == [Some(xs[0])] + Filled(xs[1..]);
  }

  /**
   * `nc_cpblts_new`: an empty list of capacity 10, filled from the
   * NULL-terminated array `list` when there is one. The source's loop stores
   * `list[0]` twice before moving on, so a non-empty array of n strings gives
   * n + 1 items.
   */
  function New(list: Option<seq<string>>): (r: Cpblts)
    ensures r.iter == 0 && r.HasRoom()
    ensures r.listSize == Grown(|r.slots|, InitialListSize)
    ensures list.None? || list.value == [] ==> r.slots == []
    ensures list.Some? && list.value != [] ==>
              |r.slots| == |list.value| + 1 && r.slots[0] == r.slots[1] == Some(list.value[0])
              && r.slots[1..] == Filled(list.value)
  {
    var empty := Cpblts([], InitialListSize, 0);
    match list
    case None => empty
    case Some(xs) => if xs == [] then empty else PushAll(empty, [xs[0]] + xs)
  }

  /**
   * `nc_cpblts_add`: refused (None) when the count already exceeds the
   * capacity; otherwise the capability goes to index `items`, which grows by
   * one, and the capacity doubles when the count reaches it.
   */
  function Add(c: Cpblts, cap: string): (r: Option<Cpblts>)
    ensures r.Some? <==> c.Consistent()
    ensures r.Some? ==> r.value.slots == c.slots + [Some(cap)] && r.value.iter == c.iter
    ensures r.Some? ==> r.value.listSize == (if |r.value.slots| == c.listSize then 2 * c.listSize else c.listSize)
    ensures r.Some? && c.HasRoom() ==> r.value.HasRoom()
  {
    if !c.Consistent() then None else Some(Push(c, cap))
  }

  /** Index of the first slot holding `cap`, or `|slots|` when there is none. */
  function FirstIndex(slots: seq<Option<string>>, cap: string): (i: nat)
    ensures i <= |slots|
    ensures i < |slots| ==> slots[i] == Some(cap)
    ensures forall j :: 0 <= j < i ==> slots[j] != Some(cap)
  {
    if slots == [] || slots[0] == Some(cap) then 0 else 1 + FirstIndex(slots[1..], cap)
  }

  /**
   * `nc_cpblts_remove`: refused (None) when the count exceeds the capacity.
   * An absent capability leaves the list as it is. Otherwise the first
   * matching slot receives the last slot's entry, the last slot becomes NULL,
   * and the CAPACITY, not the count, drops by one.
   */
  function Remove(c: Cpblts, cap: string): (r: Option<Cpblts>)
    ensures r.Some? <==> c.Consistent()
    ensures r.Some? && Some(cap) !in c.slots ==> r.value == c
    ensures r.Some? && Some(cap) in c.slots ==>
              |r.value.slots| == |c.slots| && r.value.slots[|c.slots| - 1] == None
              && r.value.listSize + 1 == c.listSize && r.value.iter == c.iter
    ensures r.Some? && Some(cap) in c.slots ==>
              var i := FirstIndex(c.slots, cap);
              (i < |c.slots| - 1 ==> r.value.slots[i] == c.slots[|c.slots| - 1])
              && forall j :: 0 <= j < |c.slots| - 1 && j != i ==> r.value.slots[j] == c.slots[j]
  {
    if !c.Consistent() then None
    else
      var i := FirstIndex(c.slots, cap);
      if i == |c.slots| then Some(c)
      else
        Some(Cpblts(MoveLastInto(c.slots, i), c.listSize - 1, c.iter))
  }

  /** Slot `i` receives the last slot's entry and the last slot becomes NULL. */
  function MoveLastInto(slots: seq<Option<string>>, i: nat): (r: seq<Option<string>>)
    requires i < |slots|
    ensures |r| == |slots| && r[|slots| - 1] == None
    ensures i < |slots| - 1 ==> r[i] == slots[|slots| - 1]
    ensures forall j :: 0 <= j < |slots| - 1 && j != i ==> r[j] == slots[j]
  {
    var last := |slots| - 1;
    slots[i := slots[last]][last := None]
  }

  /** `nc_cpblts_iter_start`: rewind the cursor. */
  function IterStart(c: Cpblts): (r: Cpblts)
    ensures r.iter == 0 && r.slots == c.slots && r.listSize == c.listSize
  {
    c.(iter := 0)
  }

  /**
   * `nc_cpblts_iter_next`: End once the cursor is past the last item;
   * otherwise the slot under the cursor, and the cursor moves on.
   */
  function IterNext(c: Cpblts): (r: (Next, Cpblts))
    ensures r.1.slots == c.slots && r.1.listSize == c.listSize
    ensures c.iter >= |c.slots| ==> r == (End, c)
    ensures c.iter < |c.slots| ==> r.0 == AsNext(c.slots[c.iter]) && r.1.iter == c.iter + 1
  {
    if c.iter > |c.slots| - 1 then (End, c)
    else (AsNext(c.slots[c.iter]), c.(iter := c.iter + 1))
  }

  /** Everything `nc_cpblts_iter_next` reports before it first reports End. */
  function Drain(c: Cpblts): seq<Next>
    decreases |c.slots| - c.iter
  {
    var step := IterNext(c);
    if step.0.End? then [] else [step.0] + Drain(step.1)
  }

  /** Iteration visits the slots from the cursor to `items`, in order. */
  lemma {:induction false} DrainVisitsSlots(c: Cpblts)
    ensures c.iter <= |c.slots| ==> |Drain(c)| == |c.slots| - c.iter
    ensures forall k :: 0 <= k < |Drain(c)| ==> c.iter + k < |c.slots| && Drain(c)[k] == AsNext(c.slots[c.iter + k])
    decreases |c.slots| - c.iter
  {
    var step := IterNext(c);
    if c.iter < |c.slots| {
      var rest := step.1;
      DrainVisitsSlots(rest);
      var d := Drain(c);
      assert d == [step.0] + Drain(rest);
      forall k | 0 <= k < |d|
        ensures c.iter + k < |c.slots| && d[k] == AsNext(c.slots[c.iter + k])
      {
        if k > 0 {
          assert d[k] == Drain(rest)[k - 1];
        }
      }
    } else {
      assert Drain(c) == [];
    }
  }

  lemma {:induction false} AsItemsFilled(xs: seq<string>, slots: seq<Option<string>>, ys: seq<Next>)
    requires slots == Filled(xs) && |ys| == |slots|
    requires forall k :: 0 <= k < |ys| ==> ys[k] == AsNext(slots[k])
    ensures ys == AsItems(xs)
    decreases |xs|
  {
    if xs != [] {
      AsItemsFilled(xs[1..], slots[1..], ys[1..]);
    }
  }

  /** After `IterStart`, iteration yields exactly what `slots` stores: a list whose slots are filled yields its capabilities, each once. */
  lemma IterateFilled(c: Cpblts, xs: seq<string>)
    requires c.slots == Filled(xs)
    ensures Drain(IterStart(c)) == AsItems(xs)
  {
    var d := IterStart(c);
    DrainVisitsSlots(d);
    AsItemsFilled(xs, c.slots, Drain(d));
  }

  /** Iterating a list built by `New` from a non-empty array yields the first string twice, then the rest. */
  lemma NewIteratesFirstTwice(xs: seq<string>)
    requires xs != []
    ensures Drain(IterStart(New(Some(xs)))) == AsItems([xs[0]] + xs)
  {
    var c := New(Some(xs));
    assert c.slots == Filled([xs[0]] + xs);
    IterateFilled(c, [xs[0]] + xs);
  }

  function AddOrKeep(c: Cpblts, cap: string): Cpblts {
    match Add(c, cap)
    case Some(d) => d
    case None => c
  }

  /**
   * `nc_session_get_cpblts_default`: a new empty list and six adds whose
   * results are not checked; `base:1.0` is added twice.
   */
  function DefaultSet(): (r: Cpblts)
    ensures r.slots == Filled([Base10, Base10, Base11, WritableRunning, Candidate, Startup])
    ensures r.HasRoom() && r.iter == 0
  {
    var c := New(None);
    var c := AddOrKeep(c, Base10);
    var c := AddOrKeep(c, Base10);
    var c := AddOrKeep(c, Base11);
    var c := AddOrKeep(c, WritableRunning);
    var c := AddOrKeep(c, Candidate);
    AddOrKeep(c, Startup)
  }

  /**
   * Removing a capability that is present drops exactly one occurrence of it
   * from the stored capabilities, while the count stays and the capacity
   * shrinks.
   */
  lemma RemoveDropsOneOccurrence(c: Cpblts, cap: string)
    requires c.Consistent() && Some(cap) in c.slots
    ensures Remove(c, cap).Some?
    ensures multiset(Present(Remove(c, cap).value.slots)) + multiset{cap} == multiset(Present(c.slots))
    ensures |Remove(c, cap).value.slots| == |c.slots|
  {
    MoveLastIntoDropsOne(c.slots, FirstIndex(c.slots, cap));
  }

  lemma MoveLastIntoDropsOne(s: seq<Option<string>>, i: nat)
    requires i < |s| && s[i].Some?
    ensures multiset(Present(MoveLastInto(s, i))) + multiset{s[i].value} == multiset(Present(s))
  {
    var last := |s| - 1;
    var p := s[..last];
    SplitLast(s);
    if i < last {
      var q := p[i := s[last]];
      MoveLastShape(s, i);
      DropTrailingNone(q);
      PresentUpdate(p, i, s[last]);
    } else {
      MoveLastShape(s, i);
      DropTrailingNone(p);
      assert Present([s[last]]) == [s[i].value];
    }
  }

  /** The stored capabilities of a list are those of all but its last slot plus those of its last slot. */
  lemma SplitLast(s: seq<Option<string>>)
    requires s != []
    ensures multiset(Present(s)) == multiset(Present(s[..|s| - 1])) + multiset(Present([s[|s| - 1]]))
  {
    assert s == s[..|s| - 1] + [s[|s| - 1]];
    PresentSplit(s[..|s| - 1], [s[|s| - 1]]);
  }

  /** Moving the last slot into slot `i` is overwriting `i` in the shorter list and appending a NULL. */
  lemma MoveLastShape(s: seq<Option<string>>, i: nat)
    requires i < |s|
    ensures i < |s| - 1 ==> MoveLastInto(s, i) == s[..|s| - 1][i := s[|s| - 1]] + [None]
    ensures i == |s| - 1 ==> MoveLastInto(s, i) == s[..|s| - 1] + [None]
  {
    var r := MoveLastInto(s, i);
    var q := if i < |s| - 1 then s[..|s| - 1][i := s[|s| - 1]] else s[..|s| - 1];
    assert |r| == |q + [None]|;
    forall j | 0 <= j < |r| ensures r[j] == (q + [None])[j] {
    }
  }

  lemma DropTrailingNone(q: seq<Option<string>>)
    ensures Present(q + [None]) == Present(q)
  {
    PresentSplit(q, [None]);
    assert Present([None]) == [];
    assert Present(q) + [] == Present(q);
  }

  lemma {:induction false} PresentSplit(a: seq<Option<string>>, b: seq<Option<string>>)
    ensures Present(a + b) == Present(a) + Present(b)
    decreases |a|
  {
    if a == [] {
      assert a + b == b;
    } else {
      assert (a + b)[1..] == a[1..] + b;
      PresentSplit(a[1..], b);
    }
  }

  /** Overwriting one slot replaces its stored capability in the multiset. */
  lemma PresentUpdate(s: seq<Option<string>>, i: nat, v: Option<string>)
    requires i < |s| && s[i].Some?
    ensures multiset(Present(s[i := v])) + multiset{s[i].value} == multiset(Present(s)) + multiset(Present([v]))
  {
    var t := s[i := v];
    assert s == s[..i] + [s[i]] + s[i + 1..];
    assert t == s[..i] + [v] + s[i + 1..];
    PresentSplit(s[..i] + [s[i]], s[i + 1..]);
    PresentSplit(s[..i], [s[i]]);
    PresentSplit(s[..i] + [v], s[i + 1..]);
    PresentSplit(s[..i], [v]);
  }

  /** No slot of the list is NULL. */
  predicate NoHoles(slots: seq<Option<string>>) {
    forall i :: 0 <= i < |slots| ==> slots[i].Some?
  }

  /** Iterating a list without NULL slots never meets one. */
  lemma IterateNoHoles(c: Cpblts)
    requires NoHoles(c.slots)
    ensures Hole !in Drain(IterStart(c))
  {
    DrainVisitsSlots(IterStart(c));
  }

  /** `nc_cpblts_new` as evidently intended: each string of the array stored once, in order. */
  function NewIntended(list: Option<seq<string>>): (r: Cpblts)
    ensures r.iter == 0 && r.HasRoom()
    ensures r.slots == Filled(if list.Some? then list.value else [])
  {
    var empty := Cpblts([], InitialListSize, 0);
    match list
    case None => empty
    case Some(xs) => PushAll(empty, xs)
  }

  /** A list built by the corrected constructor iterates exactly the array it was given. */
  lemma NewIntendedIterates(xs: seq<string>)
    ensures Drain(IterStart(NewIntended(Some(xs)))) == AsItems(xs)
  {
    IterateFilled(NewIntended(Some(xs)), xs);
  }

  /** As written, a one-string array yields a list that iterates that string twice. */
  lemma NewDuplicatesFirst()
    ensures Drain(IterStart(New(Some(["a"])))) == [Item("a"), Item("a")]
    ensures Drain(IterStart(NewIntended(Some(["a"])))) == [Item("a")]
  {
    NewIteratesFirstTwice(["a"]);
    assert AsItems(["a"] + ["a"]) == [Item("a"), Item("a")] by {
      assert (["a"] + ["a"])[1..] == ["a"];
    }
    NewIntendedIterates(["a"]);
  }

  /**
   * `nc_cpblts_remove` as evidently intended: the first matching slot
   * receives the last entry and the COUNT drops by one, the capacity stays.
   */
  function RemoveIntended(c: Cpblts, cap: string): (r: Option<Cpblts>)
    ensures r.Some? <==> c.Consistent()
    ensures r.Some? && Some(cap) !in c.slots ==> r.value == c
    ensures r.Some? && Some(cap) in c.slots ==>
              |r.value.slots| + 1 == |c.slots| && r.value.listSize == c.listSize && r.value.iter == c.iter
  {
    if !c.Consistent() then None
    else
      var i := FirstIndex(c.slots, cap);
      if i == |c.slots| then Some(c)
      else
        Some(Cpblts(MoveLastInto(c.slots, i)[..|c.slots| - 1], c.listSize, c.iter))
  }

  /**
   * The corrected removal drops exactly one occurrence of the capability,
   * keeps a list free of NULL slots, and keeps the free slot the capacity
   * rule promises.
   */
  lemma RemoveIntendedDropsOne(c: Cpblts, cap: string)
    requires c.Consistent() && Some(cap) in c.slots
    ensures RemoveIntended(c, cap).Some?
    ensures multiset(Present(RemoveIntended(c, cap).value.slots)) + multiset{cap} == multiset(Present(c.slots))
    ensures NoHoles(c.slots) ==> NoHoles(RemoveIntended(c, cap).value.slots)
    ensures RemoveIntended(c, cap).value.HasRoom()
  {
    var i := FirstIndex(c.slots, cap);
    var t := MoveLastInto(c.slots, i)[..|c.slots| - 1];
    assert RemoveIntended(c, cap) == Some(Cpblts(t, c.listSize, c.iter));
    TrimmedMoveDropsOne(c.slots, i);
    TrimmedMoveNoHoles(c.slots, i);
  }

  lemma TrimmedMoveDropsOne(s: seq<Option<string>>, i: nat)
    requires i < |s| && s[i].Some?
    ensures multiset(Present(MoveLastInto(s, i)[..|s| - 1])) + multiset{s[i].value} == multiset(Present(s))
  {
    var m := MoveLastInto(s, i);
    MoveLastIntoDropsOne(s, i);
    assert m == m[..|m| - 1] + [None];
    DropTrailingNone(m[..|m| - 1]);
  }

  lemma TrimmedMoveNoHoles(s: seq<Option<string>>, i: nat)
    requires i < |s|
    ensures NoHoles(s) ==> NoHoles(MoveLastInto(s, i)[..|s| - 1])
  {
    var t := MoveLastInto(s, i)[..|s| - 1];
    forall j | 0 <= j < |t| && NoHoles(s) ensures t[j].Some? {
      assert t[j] == MoveLastInto(s, i)[j];
    }
  }

  /**
   * As written, removing the only capability of a list leaves its one slot
   * NULL, so iteration meets the hole; the corrected removal leaves an empty
   * list.
   */
  lemma RemoveLeavesHole()
    ensures Remove(Cpblts([Some("a")], 10, 0), "a") == Some(Cpblts([None], 9, 0))
    ensures Drain(IterStart(Cpblts([None], 9, 0))) == [Hole]
    ensures RemoveIntended(Cpblts([Some("a")], 10, 0), "a") == Some(Cpblts([], 10, 0))
  {
    var c := Cpblts([Some("a")], 10, 0);
    assert FirstIndex(c.slots, "a") == 0;
    assert MoveLastInto(c.slots, 0) == [None];
    DrainVisitsSlots(Cpblts([None], 9, 0));
  }
}
