/** The per-port lists of flow rules and shared actions: ids, destruction, listing. */
module FlowLists {

  const UINT32_MAX: nat := 0xFFFF_FFFF

  datatype Result = Ok | NoMemory | Invalid | DriverError

  /** A list entry: its id, whether the driver holds an object for it, and its attributes. */
  datatype Node<A> = Node(id: nat, hasHandle: bool, attr: A)

  // ---------------------------------------------------------------- ids

  /** Ids fit 32 bits and go down strictly, so each is used once. */
  ghost predicate Descending<A>(list: seq<Node<A>>) {
    && (forall i :: 0 <= i < |list| ==> list[i].id <= UINT32_MAX)
    && forall i, j :: 0 <= i < j < |list| ==> list[i].id > list[j].id
  }

  // ---------------------------------------------------------------- destruction

  /** Going through the ids named from some point on for one entry: is it removed, and how
      many driver calls have then been made? `fails` are the numbers of the failing calls. */
  function Attempt(ids: seq<nat>, id: nat, hasHandle: bool, fails: set<nat>, call: nat): (bool, nat) {
    if ids == [] then (false, call)
    else if ids[0] != id then Attempt(ids[1..], id, hasHandle, fails, call)
    else if !hasHandle then (true, call)
    else if call in fails then Attempt(ids[1..], id, hasHandle, fails, call + 1)
    else (true, call + 1)
  }

  /** The entries a destroy call leaves. */
  function Survivors<A>(list: seq<Node<A>>, ids: seq<nat>, fails: set<nat>, call: nat): seq<Node<A>> {
    if list == [] then []
    else
      var (removed, next) := Attempt(ids, list[0].id, list[0].hasHandle, fails, call);
      var rest := Survivors(list[1..], ids, fails, next);
      if removed then rest else [list[0]] + rest
  }

  /** The entries not named. */
  function Unnamed<A>(list: seq<Node<A>>, ids: seq<nat>): seq<Node<A>> {
    if list == [] then []
    else if list[0].id in ids then Unnamed(list[1..], ids) else [list[0]] + Unnamed(list[1..], ids)
  }

  lemma {:induction false} AttemptRemovesNamed(ids: seq<nat>, id: nat, hasHandle: bool, fails: set<nat>, call: nat)
    ensures Attempt(ids, id, hasHandle, fails, call).0 ==> id in ids
    ensures id in ids && (fails == {} || !hasHandle) ==> Attempt(ids, id, hasHandle, fails, call).0
  {
    if ids != [] {
      AttemptRemovesNamed(ids[1..], id, hasHandle, fails, call);
      AttemptRemovesNamed(ids[1..], id, hasHandle, fails, call + 1);
    }
  }

  ghost predicate AllFail(fails: set<nat>, from: nat, to: nat) {
    forall call :: from <= call < to ==> call in fails
  }

  /** An entry without a handle goes exactly when it is named. One with a handle costs at most
      one call for each time it is named; it stays if and only if every call made for it fails,
      and then no naming of it is left out. */
  lemma {:induction false} AttemptExactly(ids: seq<nat>, id: nat, hasHandle: bool, fails: set<nat>, call: nat)
    ensures var (removed, next) := Attempt(ids, id, hasHandle, fails, call);
      && call <= next <= call + multiset(ids)[id]
      && (!hasHandle ==> next == call && (removed <==> id in ids))
      && (hasHandle ==> (removed <==> !AllFail(fails, call, next)))
      && (hasHandle && removed ==> AllFail(fails, call, next - 1))
      && (hasHandle && !removed ==> next == call + multiset(ids)[id])
  {
    if ids != [] {
      assert ids == [ids[0]] + ids[1..];
      AttemptExactly(ids[1..], id, hasHandle, fails, call);
      AttemptExactly(ids[1..], id, hasHandle, fails, call + 1);
    }
  }

  /** How many driver calls a destroy call makes. */
  function Calls<A>(list: seq<Node<A>>, ids: seq<nat>, fails: set<nat>, call: nat): nat {
    if list == [] then call
    else Calls(list[1..], ids, fails, Attempt(ids, list[0].id, list[0].hasHandle, fails, call).1)
  }

  ghost predicate SomeFailed(fails: set<nat>, calls: nat) {
    exists c :: c in fails && c < calls
  }

  /** Over a whole destroy call: an entry with a handle stays if and only if every driver call
      made for it failed, one without stays if and only if it is not named. */
  lemma {:induction false} StaysExactly<A>(list: seq<Node<A>>, ids: seq<nat>, fails: set<nat>, call: nat, i: nat)
    requires Descending(list) && i < |list|
    ensures list[i] in Survivors(list, ids, fails, call) <==>
      if list[i].hasHandle
      then AllFail(fails, Calls(list[..i], ids, fails, call), Calls(list[..i + 1], ids, fails, call))
      else list[i].id !in ids
  {
    hide Attempt, AllFail;
    var head, tail := list[0], list[1..];
    var (removed, next) := Attempt(ids, head.id, head.hasHandle, fails, call);
    AttemptExactly(ids, head.id, head.hasHandle, fails, call);
    assert list[..i + 1][0] == head && list[..i + 1][1..] == tail[..i];
    if i == 0 {
      assert list[..0] == [] && tail[..0] == [];
      assert head !in Survivors(tail, ids, fails, next) by {
        SurvivorsAreListed(tail, ids, fails, next, head);
      }
    } else {
      assert list[..i][0] == head && list[..i][1..] == tail[..i - 1];
      StaysExactly(tail, ids, fails, next, i - 1);
      assert list[i] == tail[i - 1] && list[i] != head;
    }
  }

  /** Destruction invents no entry and keeps every entry not named. */
  lemma {:induction false} SurvivorsAreListed<A>(list: seq<Node<A>>, ids: seq<nat>, fails: set<nat>, call: nat,
                                                 x: Node<A>)
    ensures x in Survivors(list, ids, fails, call) ==> x in list
    ensures x in list && x.id !in ids ==> x in Survivors(list, ids, fails, call)
  {
    hide Attempt;
    if list != [] {
      var head := list[0];
      AttemptRemovesNamed(ids, head.id, head.hasHandle, fails, call);
      SurvivorsAreListed(list[1..], ids, fails, Attempt(ids, head.id, head.hasHandle, fails, call).1, x);
      assert x in list <==> x == head || x in list[1..];
    }
  }

  /** Destruction keeps the order of ids. */
  lemma {:induction false} SurvivorsDescend<A>(list: seq<Node<A>>, ids: seq<nat>, fails: set<nat>, call: nat)
    requires Descending(list)
    ensures Descending(Survivors(list, ids, fails, call))
  {
    hide Attempt, Descending;
    if list == [] {
      assert Survivors(list, ids, fails, call) == list;
    } else {
      var next := Attempt(ids, list[0].id, list[0].hasHandle, fails, call).1;
      var rest := Survivors(list[1..], ids, fails, next);
      TailDescends(list);
      SurvivorsDescend(list[1..], ids, fails, next);
      forall x | x in rest ensures x in list[1..] {
        SurvivorsAreListed(list[1..], ids, fails, next, x);
      }
      HeadIsAbove(list, rest);
    }
  }

  lemma TailDescends<A>(list: seq<Node<A>>)
    requires list != [] && Descending(list)
    ensures Descending(list[1..])
  {
  }

  lemma HeadIsAbove<A>(list: seq<Node<A>>, rest: seq<Node<A>>)
    requires list != [] && Descending(list) && Descending(rest) && forall x :: x in rest ==> x in list[1..]
    ensures Descending([list[0]] + rest)
  {
    var s := [list[0]] + rest;
    forall i, j | 0 <= i < j < |s| ensures s[i].id > s[j].id {
      assert s[j] in rest;
    }
  }

  /** Going on from one call number never goes back behind it. */
  lemma {:induction false} AttemptCalls(ids: seq<nat>, id: nat, hasHandle: bool, fails: set<nat>, call: nat)
    ensures call <= Attempt(ids, id, hasHandle, fails, call).1
    ensures id in ids && !SomeFailed(fails, Attempt(ids, id, hasHandle, fails, call).1) ==>
      Attempt(ids, id, hasHandle, fails, call).0
  {
    if ids != [] {
      AttemptCalls(ids[1..], id, hasHandle, fails, call);
      AttemptCalls(ids[1..], id, hasHandle, fails, call + 1);
    }
  }

  lemma {:induction false} CallsGoUp<A>(list: seq<Node<A>>, ids: seq<nat>, fails: set<nat>, call: nat)
    ensures call <= Calls(list, ids, fails, call)
  {
    hide Attempt;
    if list != [] {
      AttemptCalls(ids, list[0].id, list[0].hasHandle, fails, call);
      CallsGoUp(list[1..], ids, fails, Attempt(ids, list[0].id, list[0].hasHandle, fails, call).1);
    }
  }

  /** When none of the calls made has failed, exactly the entries not named are left. */
  lemma {:induction false} SurvivorsOfSuccess<A>(list: seq<Node<A>>, ids: seq<nat>, fails: set<nat>, call: nat)
    requires !SomeFailed(fails, Calls(list, ids, fails, call))
    ensures Survivors(list, ids, fails, call) == Unnamed(list, ids)
  {
    hide Attempt;
    if list != [] {
      var head := list[0];
      var next := Attempt(ids, head.id, head.hasHandle, fails, call).1;
      CallsGoUp(list[1..], ids, fails, next);
      AttemptCalls(ids, head.id, head.hasHandle, fails, call);
      AttemptRemovesNamed(ids, head.id, head.hasHandle, fails, call);
      SurvivorsOfSuccess(list[1..], ids, fails, next);
    }
  }

  /** The driver's side of a list: the ids of the entries it holds an object for. Whether a call
      succeeds is decided outside; an object goes exactly when a call to destroy it succeeds. */
  class Driver {
    var held: set<nat>

    constructor ()
      ensures held == {}
    {
      held := {};
    }

    method Create(id: nat, ok: bool)
      modifies this
      ensures held == if ok then old(held) + {id} else old(held)
    {
      if ok {
        held := held + {id};
      }
    }

    method Destroy(id: nat, fail: bool) returns (failed: bool)
      modifies this
      ensures failed == fail
      ensures held == if fail then old(held) else old(held) - {id}
    {
      failed := fail;
      if !failed {
        held := held - {id};
      }
    }
  }

  /** The ids of the entries with a handle. */
  function Handles<A>(list: seq<Node<A>>): set<nat> {
    set i | 0 <= i < |list| && list[i].hasHandle :: list[i].id
  }

  /** Putting one entry into a list puts in its handle and no other. */
  lemma HandlesWith<A>(list: seq<Node<A>>, x: Node<A>, at: nat)
    requires at <= |list|
    ensures Handles(list[..at] + [x] + list[at..]) == Handles(list) + if x.hasHandle then {x.id} else {}
  {
    var s := list[..at] + [x] + list[at..];
    assert s[at] == x;
    forall k | 0 <= k < |list| && list[k].hasHandle ensures list[k].id in Handles(s) {
      assert s[if k < at then k else k + 1] == list[k];
    }
    assert forall k :: 0 <= k < |s| ==> s[k] == if k < at then list[k] else if k == at then x else list[k - 1];
  }

  /** Taking one entry out of a list takes out its handle and no other. */
  lemma HandlesWithout<A>(list: seq<Node<A>>, i: nat)
    requires Descending(list) && i < |list|
    ensures var left := list[..i] + list[i + 1..];
      Descending(left) && Handles(left) == if list[i].hasHandle then Handles(list) - {list[i].id} else Handles(list)
  {
    var left := list[..i] + list[i + 1..];
    forall k | 0 <= k < |list| && k != i && list[k].hasHandle ensures list[k].id in Handles(left) {
      assert left[if k < i then k else k - 1] == list[k];
    }
    assert forall k :: 0 <= k < |left| ==> left[k] == if k < i then list[k] else list[k + 1];
  }

  /** The inner loop: try the named ids on one entry. The driver's object goes exactly when
      the entry does. */
  method TryNamed(id: nat, hasHandle: bool, ids: seq<nat>, fails: set<nat>, start: nat, r0: Result, driver: Driver)
    returns (removed: bool, call: nat, r: Result)
    requires r0 == if SomeFailed(fails, start) then DriverError else Ok
    modifies driver
    ensures (removed, call) == Attempt(ids, id, hasHandle, fails, start)
    ensures r == if SomeFailed(fails, call) then DriverError else Ok
    ensures driver.held == if removed && hasHandle then old(driver.held) - {id} else old(driver.held)
  {
    var i := 0;
    removed, call, r := false, start, r0;
    assert ids[0..] == ids;
    while i != |ids| && !removed
      invariant i <= |ids| && (removed ==> i < |ids|)
      invariant Attempt(ids, id, hasHandle, fails, start) ==
        if removed then (true, call) else Attempt(ids[i..], id, hasHandle, fails, call)
      invariant r == if SomeFailed(fails, call) then DriverError else Ok
      invariant driver.held == if removed && hasHandle then old(driver.held) - {id} else old(driver.held)
      decreases |ids| - i, !removed
    {
      if ids[i] != id {
        i := i + 1;
      } else if hasHandle {
        var failed := driver.Destroy(id, call in fails);
        call := call + 1;
        if failed {
          r := DriverError;
          i := i + 1;
        } else {
          removed := true;
        }
      } else {
        removed := true;
      }
    }
  }

  /** One turn of the outer loop: what is left and the calls to come are those from the next entry on. */
  lemma OneEntry<A>(left: seq<Node<A>>, tmp: nat, ids: seq<nat>, fails: set<nat>, call: nat)
    requires tmp < |left|
    ensures var (removed, next) := Attempt(ids, left[tmp].id, left[tmp].hasHandle, fails, call);
      && left[..tmp] + Survivors(left[tmp..], ids, fails, call) ==
         left[..if removed then tmp else tmp + 1] + Survivors(left[tmp + 1..], ids, fails, next)
      && Calls(left[tmp..], ids, fails, call) == Calls(left[tmp + 1..], ids, fails, next)
  {
    hide Attempt;
    var cur := left[tmp..];
    assert cur[0] == left[tmp] && cur[1..] == left[tmp + 1..];
    assert left[..tmp + 1] == left[..tmp] + [left[tmp]];
  }

  lemma NoEntry<A>(ids: seq<nat>, fails: set<nat>, call: nat)
    ensures Survivors<A>([], ids, fails, call) == [] && Calls<A>([], ids, fails, call) == call
  {
  }

  /** The loop of `port_flow_destroy` and `port_shared_action_destroy`: walk the list, try the
      named ids on each entry, unlink it on success. An error is reported when a call failed. The
      entries left with a handle are those whose objects the driver still holds. */
  method DestroyNamed<A>(list: seq<Node<A>>, ids: seq<nat>, fails: set<nat>, driver: Driver)
    returns (left: seq<Node<A>>, r: Result)
    requires Descending(list) && driver.held == Handles(list)
    modifies driver
    ensures left == Survivors(list, ids, fails, 0)
    ensures r == if SomeFailed(fails, Calls(list, ids, fails, 0)) then DriverError else Ok
    ensures Descending(left) && driver.held == Handles(left)
  {
    hide Attempt, SomeFailed, Descending, Handles, Survivors, Calls;
    left, r := list, Ok;
    var tmp, call: nat := 0, 0;
    NoCallNoFailure(fails);
    assert left[..0] == [] && left[0..] == left;
    while tmp != |left|
      invariant tmp <= |left|
      invariant Survivors(list, ids, fails, 0) == left[..tmp] + Survivors(left[tmp..], ids, fails, call)
      invariant Calls(list, ids, fails, 0) == Calls(left[tmp..], ids, fails, call)
      invariant r == if SomeFailed(fails, call) then DriverError else Ok
      invariant Descending(left) && driver.held == Handles(left)
      decreases |left| - tmp
    {
      HandlesWithout(left, tmp);
      OneEntry(left, tmp, ids, fails, call);
      ghost var next := left[tmp + 1..];
      var removed;
      removed, call, r := TryNamed(left[tmp].id, left[tmp].hasHandle, ids, fails, call, r, driver);
      if removed {
        ghost var before := left[..tmp];
        left := left[..tmp] + left[tmp + 1..];
        assert left[tmp..] == next && left[..tmp] == before;
      } else {
        tmp := tmp + 1;
      }
    }
    NoEntry<A>(ids, fails, call);
    assert left[..|left|] == left && left[|left|..] == [];
  }

  lemma NothingFails(calls: nat)
    ensures !SomeFailed({}, calls)
  {
  }

  lemma NoCallNoFailure(fails: set<nat>)
    ensures !SomeFailed(fails, 0)
  {
  }

  // ---------------------------------------------------------------- flow rules

  datatype Attr = Attr(group: nat, priority: nat)

  type Flow = Node<Attr>

  /** Listing order: by group, then priority, then id. */
  predicate Before(a: Flow, b: Flow) {
    || a.attr.group < b.attr.group
    || (a.attr.group == b.attr.group && a.attr.priority < b.attr.priority)
    || (a.attr.group == b.attr.group && a.attr.priority == b.attr.priority && a.id < b.id)
  }

  ghost predicate Sorted(list: seq<Flow>) {
    forall i, j :: 0 <= i < j < |list| ==> !Before(list[j], list[i])
  }

  /** The flows of the wanted groups; no groups means all. */
  function Wanted(list: seq<Flow>, groups: seq<nat>): seq<Flow> {
    if list == [] then []
    else
      var n := |list| - 1;
      var earlier := Wanted(list[..n], groups);
      if groups == [] || list[n].attr.group in groups then earlier + [list[n]] else earlier
  }

  /** A flow is listed as often as it is in the list if its group is wanted, and else not at all. */
  lemma {:induction false} WantedExactly(list: seq<Flow>, groups: seq<nat>, x: Flow)
    ensures multiset(Wanted(list, groups))[x] ==
      if groups == [] || x.attr.group in groups then multiset(list)[x] else 0
  {
    if list != [] {
      var n := |list| - 1;
      assert list == list[..n] + [list[n]];
      WantedExactly(list[..n], groups, x);
    }
  }

  lemma WantedOfNone(groups: seq<nat>)
    ensures Wanted([], groups) == []
  {
  }

  lemma WantedNext(list: seq<Flow>, groups: seq<nat>, n: nat)
    requires n < |list|
    ensures Wanted(list[..n + 1], groups) ==
      Wanted(list[..n], groups) + if groups == [] || list[n].attr.group in groups then [list[n]] else []
  {
    assert list[..n + 1][..n] == list[..n];
  }

  /** Groups do not go down, within a group priorities do not, within a priority ids do not. */
  lemma SortedByKeys(list: seq<Flow>)
    requires Sorted(list)
    ensures forall i, j :: 0 <= i < j < |list| ==>
      var (a, b) := (list[i], list[j]);
      && a.attr.group <= b.attr.group
      && (a.attr.group == b.attr.group ==> a.attr.priority <= b.attr.priority)
      && (a.attr.group == b.attr.group && a.attr.priority == b.attr.priority ==> a.id <= b.id)
  {
  }

  class FlowPort {
    var list: seq<Flow>
    const driver: Driver

    /** Every rule has a handle, and the driver holds the rules listed and no other. */
    ghost predicate Valid()
      reads this, driver
    {
      && Descending(list)
      && (forall i :: 0 <= i < |list| ==> list[i].hasHandle)
      && driver.held == Handles(list)
    }

    constructor (driver: Driver)
      requires driver.held == {}
      ensures Valid() && list == [] && this.driver == driver
    {
      list := [];
      this.driver := driver;
    }

    /** `port_flow_create`: the new rule gets the next id above the head of the list; conversion
        and driver may fail. */
    method Create(attr: Attr, converts: bool, driverOk: bool) returns (r: Result)
      requires Valid()
      modifies this, driver
      ensures Valid()
      ensures r == if old(list) != [] && old(list)[0].id == UINT32_MAX then NoMemory
                   else if converts && driverOk then Ok else DriverError
      ensures r == Ok ==> list == [Node(if old(list) == [] then 0 else old(list)[0].id + 1, true, attr)] + old(list)
      ensures r != Ok ==> list == old(list)
    {
      var id := 0;
      if list != [] {
        if list[0].id == UINT32_MAX {
          return NoMemory;
        }
        id := list[0].id + 1;
      }
      if !converts {
        return DriverError;
      }
      driver.Create(id, driverOk);
      if !driverOk {
        return DriverError;
      }
      HandlesWith(list, Node(id, true, attr), 0);
      assert list[..0] + [Node(id, true, attr)] + list[0..] == [Node(id, true, attr)] + list;
      list := [Node(id, true, attr)] + list;
      r := Ok;
    }

    /** `port_flow_destroy`. */
    method Destroy(ids: seq<nat>, fails: set<nat>) returns (r: Result)
      requires Valid()
      modifies this, driver
      ensures Valid() && list == Survivors(old(list), ids, fails, 0)
      ensures r == if SomeFailed(fails, Calls(old(list), ids, fails, 0)) then DriverError else Ok
      ensures r == Ok ==> list == Unnamed(old(list), ids)
      ensures fails == {} ==> r == Ok
    {
      hide SomeFailed, Attempt;
      forall x | x in Survivors(list, ids, fails, 0) ensures x.hasHandle {
        SurvivorsAreListed(list, ids, fails, 0, x);
      }
      SurvivorsDescend(list, ids, fails, 0);
      if !SomeFailed(fails, Calls(list, ids, fails, 0)) {
        SurvivorsOfSuccess(list, ids, fails, 0);
      }
      NothingFails(Calls(list, ids, fails, 0));
      list, r := DestroyNamed(list, ids, fails, driver);
    }

    /** `port_flow_list`: insertion into a second list, linked in listing order. */
    method List(groups: seq<nat>) returns (sorted: seq<Flow>)
      ensures Sorted(sorted) && multiset(sorted) == multiset(Wanted(list, groups))
      ensures forall f ::
        multiset(sorted)[f] == (if groups == [] || f.attr.group in groups then multiset(list)[f] else 0)
      ensures forall i, j :: 0 <= i < j < |sorted| ==>
        var (a, b) := (sorted[i], sorted[j]);
        && a.attr.group <= b.attr.group
        && (a.attr.group == b.attr.group ==> a.attr.priority <= b.attr.priority)
        && (a.attr.group == b.attr.group && a.attr.priority == b.attr.priority ==> a.id <= b.id)
    {
      hide Sorted, Wanted, Before;
      sorted := [];
      EmptyIsSorted();
      assert list[..0] == [] && Wanted([], groups) == [] by {
        WantedOfNone(groups);
      }
      for pf := 0 to |list|
        invariant Sorted(sorted) && multiset(sorted) == multiset(Wanted(list[..pf], groups))
      {
        WantedNext(list, groups, pf);
        var skip := FilteredOut(list[pf].attr.group, groups);
        if !skip {
          sorted := InsertedFlow(sorted, list[pf]);
        }
      }
      assert list[..|list|] == list;
      SortedByKeys(sorted);
      forall f ensures multiset(sorted)[f] == if groups == [] || f.attr.group in groups then multiset(list)[f] else 0 {
        WantedExactly(list, groups, f);
      }
    }
  }

  method FilteredOut(group: nat, groups: seq<nat>) returns (skip: bool)
    ensures skip <==> groups != [] && group !in groups
  {
    if groups == [] {
      return false;
    }
    var i := 0;
    while i != |groups| && group != groups[i]
      invariant i <= |groups| && group !in groups[..i]
      decreases |groups| - i
    {
      i := i + 1;
    }
    skip := i == |groups|;
  }

  /** Linking one flow in before the first that it does not come after. */
  method InsertedFlow(sorted: seq<Flow>, f: Flow) returns (s: seq<Flow>)
    requires Sorted(sorted)
    ensures Sorted(s) && multiset(s) == multiset(sorted) + multiset{f}
  {
    hide Before, Sorted;
    var tmp := 0;
    while tmp != |sorted| && Before(sorted[tmp], f)
      invariant tmp <= |sorted| && forall k :: 0 <= k < tmp ==> Before(sorted[k], f)
      decreases |sorted| - tmp
    {
      tmp := tmp + 1;
    }
    InsertSorted(sorted, f, tmp);
    s := sorted[..tmp] + [f] + sorted[tmp..];
  }

  lemma BeforeIsTransitive(a: Flow, b: Flow, c: Flow)
    requires Before(a, b)
    ensures !Before(c, b) ==> !Before(c, a)
  {
  }

  lemma EmptyIsSorted()
    ensures Sorted([])
  {
  }

  lemma InsertSorted(sorted: seq<Flow>, f: Flow, tmp: nat)
    requires Sorted(sorted) && tmp <= |sorted|
    requires forall k :: 0 <= k < tmp ==> Before(sorted[k], f)
    requires tmp < |sorted| ==> !Before(sorted[tmp], f)
    ensures var s := sorted[..tmp] + [f] + sorted[tmp..];
      Sorted(s) && multiset(s) == multiset(sorted) + multiset{f}
  {
    hide Before;
    var s := sorted[..tmp] + [f] + sorted[tmp..];
    assert sorted == sorted[..tmp] + sorted[tmp..];
    forall i, j | 0 <= i < j < |s| ensures !Before(s[j], s[i]) {
      if i < tmp && j == tmp {
        BeforeIsTransitive(sorted[i], f, f);
        NotBeforeItself(f);
        BeforeAsymmetric(sorted[i], f);
      } else if i == tmp && j > tmp + 1 {
        NotBeforeChain(sorted[tmp], sorted[j - 1], f);
      }
    }
  }

  lemma NotBeforeItself(a: Flow)
    ensures !Before(a, a)
  {
  }

  lemma BeforeAsymmetric(a: Flow, b: Flow)
    requires Before(a, b)
    ensures !Before(b, a)
  {
  }

  lemma NotBeforeChain(a: Flow, b: Flow, f: Flow)
    requires !Before(a, f) && !Before(b, a)
    ensures !Before(b, f)
  {
  }

  // ---------------------------------------------------------------- shared actions

  type SharedAction = Node<()>

  /** Where `action_alloc` puts an id: before the first entry not above it. */
  function Place(list: seq<SharedAction>, id: nat): (p: nat)
    ensures p <= |list|
    ensures forall k :: 0 <= k < p ==> list[k].id > id
    ensures p < |list| ==> list[p].id <= id
  {
    if list == [] || list[0].id <= id then 0 else 1 + Place(list[1..], id)
  }

  predicate Assigned(list: seq<SharedAction>, id: nat) {
    exists k :: 0 <= k < |list| && list[k].id == id
  }

  class ActionPort {
    var list: seq<SharedAction>
    const driver: Driver

    /** The driver holds the actions listed with a handle and no other. */
    ghost predicate Valid()
      reads this, driver
    {
      && Descending(list)
      && (forall i :: 0 <= i < |list| ==> list[i].id < UINT32_MAX)
      && driver.held == Handles(list)
    }

    constructor (driver: Driver)
      requires driver.held == {}
      ensures Valid() && list == [] && this.driver == driver
    {
      list := [];
      this.driver := driver;
    }

    /** The id a request stands for: UINT32_MAX asks for the next one above the head. */
    function Resolved(id: nat): nat
      reads this
    {
      if id == UINT32_MAX then if list == [] then 0 else list[0].id + 1 else id
    }

    /** `action_alloc`: fails exactly when the highest id is taken and the next one is asked
        for, when memory runs out, or when the id is assigned. */
    method Alloc(id: nat, memory: bool) returns (r: Result, at: nat)
      requires Valid() && id <= UINT32_MAX
      modifies this
      ensures Valid()
      ensures r == if id == UINT32_MAX && old(list) != [] && old(list)[0].id == UINT32_MAX - 1 then NoMemory
                   else if !memory then NoMemory
                   else if Assigned(old(list), old(Resolved(id))) then Invalid else Ok
      ensures r == Ok ==> at == Place(old(list), old(Resolved(id)))
      ensures r == Ok ==> list == old(list)[..at] + [Node(old(Resolved(id)), false, ())] + old(list)[at..]
      ensures r == Ok && id != UINT32_MAX ==> list[at].id == id
      ensures r == Ok && id == UINT32_MAX ==> list[at].id == if old(list) == [] then 0 else old(list)[0].id + 1
      ensures r != Ok ==> list == old(list)
    {
      hide Descending, Assigned, Place, Handles;
      at := 0;
      var wanted := id;
      if id == UINT32_MAX {
        if list != [] {
          if list[0].id == UINT32_MAX - 1 {
            return NoMemory, 0;
          }
          wanted := list[0].id + 1;
        } else {
          wanted := 0;
        }
      }
      if !memory {
        return NoMemory, 0;
      }
      while at != |list| && list[at].id > wanted
        invariant at <= |list| && forall k :: 0 <= k < at ==> list[k].id > wanted
        decreases |list| - at
      {
        at := at + 1;
      }
      PlaceDecides(list, wanted, at);
      if at != |list| && list[at].id == wanted {
        return Invalid, at;
      }
      HandlesWith(list, Node(wanted, false, ()), at);
      list := list[..at] + [Node(wanted, false, ())] + list[at..];
      r := Ok;
    }

    /** `port_shared_action_create`: if the driver refuses, the entry is taken out again. */
    method Create(id: nat, memory: bool, driverOk: bool) returns (r: Result)
      requires Valid() && id <= UINT32_MAX
      modifies this, driver
      ensures Valid()
      ensures r == if id == UINT32_MAX && old(list) != [] && old(list)[0].id == UINT32_MAX - 1 then NoMemory
                   else if !memory then NoMemory
                   else if Assigned(old(list), old(Resolved(id))) then Invalid
                   else if driverOk then Ok else DriverError
      ensures r != Ok ==> list == old(list)
      ensures r == Ok ==>
        var at := Place(old(list), old(Resolved(id)));
        list == old(list)[..at] + [Node(old(Resolved(id)), true, ())] + old(list)[at..]
    {
      ghost var before := list;
      var at;
      r, at := Alloc(id, memory);
      if r != Ok {
        return;
      }
      driver.Create(list[at].id, driverOk);
      if !driverOk {
        RemovingTheNewOne(before, list[at], at);
        NothingFails(Calls(list, [list[at].id], {}, 0));
        SurvivorsOfSuccess(list, [list[at].id], {}, 0);
        var r';
        list, r' := DestroyNamed(list, [list[at].id], {}, driver);
        return DriverError;
      }
      HandlesWith(before, list[at], at);
      HandlesWith(before, list[at].(hasHandle := true), at);
      assert list[at := list[at].(hasHandle := true)] ==
             before[..at] + [list[at].(hasHandle := true)] + before[at..];
      list := list[at := list[at].(hasHandle := true)];
    }

    /** `port_shared_action_destroy`. */
    method Destroy(ids: seq<nat>, fails: set<nat>) returns (r: Result)
      requires Valid()
      modifies this, driver
      ensures Valid() && list == Survivors(old(list), ids, fails, 0)
      ensures r == if SomeFailed(fails, Calls(old(list), ids, fails, 0)) then DriverError else Ok
      ensures r == Ok ==> list == Unnamed(old(list), ids)
      ensures fails == {} ==> r == Ok
    {
      hide SomeFailed, Attempt;
      forall x | x in Survivors(list, ids, fails, 0) ensures x.id < UINT32_MAX {
        SurvivorsAreListed(list, ids, fails, 0, x);
      }
      SurvivorsDescend(list, ids, fails, 0);
      if !SomeFailed(fails, Calls(list, ids, fails, 0)) {
        SurvivorsOfSuccess(list, ids, fails, 0);
      }
      NothingFails(Calls(list, ids, fails, 0));
      list, r := DestroyNamed(list, ids, fails, driver);
    }
  }

  /** The place in the list decides whether an id is assigned, and inserting there keeps the order. */
  lemma PlaceDecides(list: seq<SharedAction>, id: nat, at: nat)
    requires Descending(list) && id <= UINT32_MAX && at <= |list|
    requires forall k :: 0 <= k < at ==> list[k].id > id
    requires at < |list| ==> list[at].id <= id
    ensures at == Place(list, id)
    ensures Assigned(list, id) <==> at < |list| && list[at].id == id
    ensures !Assigned(list, id) ==> Descending(list[..at] + [Node(id, false, ())] + list[at..])
  {
    if at == |list| || list[at].id != id {
      InsertedDescends(list, Node(id, false, ()), at);
    }
  }

  lemma InsertedDescends<A>(list: seq<Node<A>>, x: Node<A>, at: nat)
    requires Descending(list) && x.id <= UINT32_MAX && at <= |list|
    requires forall k :: 0 <= k < at ==> list[k].id > x.id
    requires at < |list| ==> list[at].id < x.id
    ensures Descending(list[..at] + [x] + list[at..])
  {
    var s := list[..at] + [x] + list[at..];
    forall i, j | 0 <= i < j < |s| ensures s[i].id > s[j].id {
      assert s[i] == if i < at then list[i] else if i == at then x else list[i - 1];
      assert s[j] == if j < at then list[j] else if j == at then x else list[j - 1];
    }
    forall i | 0 <= i < |s| ensures s[i].id <= UINT32_MAX {
      assert s[i] == if i < at then list[i] else if i == at then x else list[i - 1];
    }
  }

  lemma {:induction false} UnnamedKeepsOthers<A>(list: seq<Node<A>>, ids: seq<nat>)
    requires forall x :: x in list ==> x.id !in ids
    ensures Unnamed(list, ids) == list
  {
    if list != [] {
      UnnamedKeepsOthers(list[1..], ids);
    }
  }

  /** Naming one id removes the entry with it and nothing else. */
  lemma {:induction false} RemovingTheNewOne<A>(before: seq<Node<A>>, x: Node<A>, at: nat)
    requires at <= |before| && forall y :: y in before ==> y.id != x.id
    ensures Unnamed(before[..at] + [x] + before[at..], [x.id]) == before
  {
    var list := before[..at] + [x] + before[at..];
    if at == 0 {
      assert list[1..] == before;
      UnnamedKeepsOthers(before, [x.id]);
    } else {
      assert list[0] == before[0] && list[1..] == before[1..][..at - 1] + [x] + before[1..][at - 1..];
      RemovingTheNewOne(before[1..], x, at - 1);
    }
  }
}
