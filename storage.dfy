/** The in-memory store (`MemStorage` in server/storage.ts): the queue table,
    the queue counters and flags, and the user table. */
module Storage {
  import opened Common
  import opened Schema
  import opened Sorting

  // ------------------------------------------------------ the queue table

  /** The queue table is a JavaScript `Map` from ticket number to item. It is
      modelled by the map itself and by its keys in insertion order, which is
      the order in which the `Map` enumerates its values. */
  ghost predicate TableValid(order: seq<int>, items: map<int, QueueItem>) {
    && Distinct(order)
    && (forall k :: k in items <==> k in order)
    && (forall i :: 0 <= i < |order| ==> order[i] in items)
    && (forall k :: k in items ==> items[k].number == k && items[k].id == k)
  }

  /** `Array.from(queueItems.values())` */
  function Values(order: seq<int>, items: map<int, QueueItem>): (r: seq<QueueItem>)
    requires forall i :: 0 <= i < |order| ==> order[i] in items
    ensures |r| == |order|
    ensures forall i :: 0 <= i < |order| ==> r[i] == items[order[i]]
  {
    seq(|order|, i requires 0 <= i < |order| => items[order[i]])
  }

  lemma ValuesFacts(order: seq<int>, items: map<int, QueueItem>)
    requires TableValid(order, items)
    ensures DistinctKeys(Values(order, items), NumberOf)
    ensures forall x :: x in Values(order, items) <==> x.number in items && items[x.number] == x
  {
    var v := Values(order, items);
    forall i, j | 0 <= i < j < |v| ensures NumberOf(v[i]) != NumberOf(v[j]) {
      assert v[i].number == order[i] && v[j].number == order[j];
    }
    forall x ensures x in v <==> x.number in items && items[x.number] == x {
      if x in v {
        var i :| 0 <= i < |v| && v[i] == x;
        assert items[order[i]].number == order[i];
      }
      if x.number in items && items[x.number] == x {
        var i :| 0 <= i < |order| && order[i] == x.number;
        assert v[i] == x;
      }
    }
  }

  /** Filtering keeps the keys of a sequence distinct. */
  lemma {:induction false} FilterKeepsDistinctKeys<T(!new)>(s: seq<T>, f: T -> bool, key: T -> int)
    requires DistinctKeys(s, key)
    ensures DistinctKeys(Filter(s, f), key)
  {
    if s != [] {
      assert s == [s[0]] + s[1..];
      DistinctKeysCons(s[0], s[1..], key);
      FilterKeepsDistinctKeys(s[1..], f, key);
      var rest := Filter(s[1..], f);
      assert Filter(s, f) == (if f(s[0]) then [s[0]] else []) + rest;
      if f(s[0]) {
        forall k | k in Keys(rest, key) ensures k in Keys(s[1..], key) {
          var i :| 0 <= i < |rest| && key(rest[i]) == k;
          assert rest[i] in s[1..];
          var j :| 0 <= j < |s[1..]| && s[1..][j] == rest[i];
        }
        DistinctKeysCons(s[0], rest, key);
      }
    }
  }

  /** `.map(item => item.number)` */
  function Numbers(s: seq<QueueItem>): (r: seq<int>)
    ensures |r| == |s|
    ensures forall i :: 0 <= i < |s| ==> r[i] == s[i].number
  {
    seq(|s|, i requires 0 <= i < |s| => s[i].number)
  }

  /** `.sort((a, b) => a.number - b.number)` */
  function ByNumber(s: seq<QueueItem>): (r: seq<QueueItem>)
    ensures multiset(r) == multiset(s)
    ensures forall i, j :: 0 <= i < j < |r| ==> r[i].number <= r[j].number
    ensures DistinctKeys(s, NumberOf) ==> StrictlySortedBy(r, NumberOf)
  {
    SortBy(s, NumberOf)
  }

  /** What `getQueueItems` returns: every stored item, in ascending number order. */
  function SortedItems(order: seq<int>, items: map<int, QueueItem>): (r: seq<QueueItem>)
    requires TableValid(order, items)
    ensures StrictlySortedBy(r, NumberOf)
    ensures forall x :: x in r <==> x.number in items && items[x.number] == x
    ensures |r| == |items|
  {
    ValuesFacts(order, items);
    TableSize(order, items);
    var r := ByNumber(Values(order, items));
    assert forall x :: x in r <==> x in multiset(r);
    r
  }

  /** What `getQueueItemsByStatus(status)` returns: exactly the stored items
      with that status, in ascending number order. */
  function SortedItemsWithStatus(order: seq<int>, items: map<int, QueueItem>, status: Status): (r: seq<QueueItem>)
    requires TableValid(order, items)
    ensures StrictlySortedBy(r, NumberOf)
    ensures forall x :: x in r <==> x.number in items && items[x.number] == x && x.status == status
  {
    SortedItemsFacts(order, items, status);
    ByNumber(Filter(Values(order, items), HasStatus(status)))
  }

  function HasStatus(status: Status): (QueueItem -> bool) {
    (x: QueueItem) => x.status == status
  }

  lemma SortedItemsFacts(order: seq<int>, items: map<int, QueueItem>, status: Status)
    requires TableValid(order, items)
    ensures var r := ByNumber(Filter(Values(order, items), HasStatus(status)));
      && StrictlySortedBy(r, NumberOf)
      && forall x :: x in r <==> x.number in items && items[x.number] == x && x.status == status
  {
    ValuesFacts(order, items);
    var values := Values(order, items);
    var f := Filter(values, HasStatus(status));
    FilterKeepsDistinctKeys(values, HasStatus(status), NumberOf);
    var r := ByNumber(f);
    assert StrictlySortedBy(r, NumberOf);
    forall x ensures x in r <==> x.number in items && items[x.number] == x && x.status == status {
      assert x in r <==> x in multiset(r);
      assert x in f <==> x in multiset(f);
      assert x in f <==> x in values && HasStatus(status)(x);
    }
  }

  lemma {:induction false} DistinctCard(s: seq<int>)
    requires Distinct(s)
    ensures |set k | k in s| == |s|
  {
    if s != [] {
      assert Distinct(s[1..]) by {
        forall i, j | 0 <= i < j < |s[1..]| ensures s[1..][i] != s[1..][j] {
          assert s[1..][i] == s[i + 1] && s[1..][j] == s[j + 1];
        }
      }
      DistinctCard(s[1..]);
      assert s[0] !in s[1..] by {
        forall i | 0 <= i < |s[1..]| ensures s[1..][i] != s[0] { assert s[1..][i] == s[i + 1]; }
      }
      assert (set k | k in s) == {s[0]} + (set k | k in s[1..]) by {
        assert s == [s[0]] + s[1..];
      }
    }
  }

  lemma TableSize(order: seq<int>, items: map<int, QueueItem>)
    requires TableValid(order, items)
    ensures |items| == |order|
  {
    DistinctCard(order);
    assert items.Keys == set k | k in order by {
      forall k ensures k in items.Keys <==> k in (set k | k in order) {}
    }
  }

  function View(item: QueueItem): (v: ItemView) {
    ItemView(item.number, item.status, item.issuedAt)
  }

  /** `nextNumbers`: the waiting numbers, ascending. */
  function WaitingNumbers(order: seq<int>, items: map<int, QueueItem>): (r: seq<int>)
    requires TableValid(order, items)
    ensures StrictlyAscending(r)
    ensures forall n :: n in r <==> n in items && items[n].status == Waiting
  {
    var waiting := SortedItemsWithStatus(order, items, Waiting);
    var next := Numbers(waiting);
    assert forall n :: n in next <==> n in items && items[n].status == Waiting by {
      forall n ensures n in next <==> n in items && items[n].status == Waiting {
        if n in items && items[n].status == Waiting {
          assert items[n].number == n && items[n] in waiting;
          var i :| 0 <= i < |waiting| && waiting[i] == items[n];
          assert next[i] == n;
        }
      }
    }
    next
  }

  /** The numbers of the waiting items. */
  function WaitingSet(items: map<int, QueueItem>): set<int> {
    set n | n in items && items[n].status == Waiting
  }

  /** An ascending list without repeats is as long as the set of its members. */
  lemma AscendingCount(s: seq<int>, members: set<int>)
    requires StrictlyAscending(s)
    requires forall n :: n in s <==> n in members
    ensures |s| == |members|
  {
    DistinctCard(s);
    assert members == set k | k in s by {
      forall k ensures k in members <==> k in (set k | k in s) {}
    }
  }

  /** The status projection of a table and its counters (`getQueueStatus`). */
  function Project(order: seq<int>, items: map<int, QueueItem>, currentNumber: int, lastCalledAt: Option<Time>): (st: QueueStatus)
    requires TableValid(order, items)
    ensures st.currentNumber == currentNumber && st.lastCalledAt == lastCalledAt
    ensures st.waitingCount == |st.nextNumbers| == |WaitingSet(items)|
    ensures StrictlyAscending(st.nextNumbers)
    ensures forall n :: n in st.nextNumbers <==> n in items && items[n].status == Waiting
    ensures |st.queueItems| == |order| == |items|
    ensures forall i :: 0 <= i < |order| ==> st.queueItems[i] == View(items[order[i]])
  {
    var next := WaitingNumbers(order, items);
    AscendingCount(next, WaitingSet(items));
    TableSize(order, items);
    var views := seq(|order|, i requires 0 <= i < |order| => View(items[order[i]]));
    QueueStatus(currentNumber, next, |next|, views, lastCalledAt)
  }

  // ------------------------------------------------------ the user table

  /** The user `Map` is keyed by ids 1, 2, 3, ... handed out in creation order
      and never deleted, so it is modelled as the sequence of its values. */
  ghost predicate UsersValid(users: seq<User>, nextId: int) {
    && nextId == |users| + 1
    && forall i :: 0 <= i < |users| ==> users[i].id == i + 1
  }

  /** `Array.from(users.values()).find(user => user.username === username)`,
      searching from position `from`: the position of the first match. */
  function FindByUsername(users: seq<User>, username: string, from: nat): (r: Option<nat>)
    requires from <= |users|
    ensures r.Some? ==> from <= r.value < |users| && users[r.value].username == username
    ensures r.Some? ==> forall j :: from <= j < r.value ==> users[j].username != username
    ensures r.None? ==> forall j :: from <= j < |users| ==> users[j].username != username
    decreases |users| - from
  {
    if from == |users| then None
    else if users[from].username == username then Some(from)
    else FindByUsername(users, username, from + 1)
  }

  // ------------------------------------------------------ the store

  class MemStorage {
    var users: seq<User>
    var userId: int
    var order: seq<int>
    var items: map<int, QueueItem>
    var currentNumber: int
    var lastNumber: int
    var lastCalledAt: Option<Time>
    var soundEnabled: bool
    var visualAlertsEnabled: bool

    ghost predicate Valid()
      reads this
    {
      TableValid(order, items) && UsersValid(users, userId)
    }

    /** The parts of the state, for saying which of them an operation leaves alone. */
    ghost function UserTable(): (seq<User>, int) reads this { (users, userId) }
    ghost function QueueTable(): (seq<int>, map<int, QueueItem>) reads this { (order, items) }
    ghost function Flags(): (bool, bool) reads this { (soundEnabled, visualAlertsEnabled) }

    constructor ()
      ensures Valid()
      ensures users == [] && userId == 1 && order == [] && items == map[]
      ensures currentNumber == 0 && lastNumber == 0 && lastCalledAt == None
      ensures soundEnabled && visualAlertsEnabled
    {
      users := [];
      userId := 1;
      order := [];
      items := map[];
      currentNumber := 0;
      lastNumber := 0;
      lastCalledAt := None;
      soundEnabled := true;
      visualAlertsEnabled := true;
    }

    // ---------------- users

    function GetUser(id: int): (r: Option<User>)
      reads this
      requires Valid()
      ensures r.Some? <==> 1 <= id < userId
      ensures r.Some? ==> r.value.id == id && r.value in users
    {
      if 1 <= id <= |users| then Some(users[id - 1]) else None
    }

    /** The first user created with that name, if any. */
    function GetUserByUsername(username: string): (r: Option<User>)
      reads this
      requires Valid()
      ensures r.Some? <==> exists i :: 0 <= i < |users| && users[i].username == username
      ensures r.Some? ==> r.value.username == username && GetUser(r.value.id) == Some(r.value)
      ensures r.Some? ==> forall id :: 1 <= id < r.value.id ==> GetUser(id).value.username != username
    {
      match FindByUsername(users, username, 0)
      case None => None
      case Some(i) => Some(users[i])
    }

    method CreateUser(newUser: NewUser) returns (user: User)
      requires Valid()
      modifies this
      ensures Valid()
      ensures user == User(old(userId), newUser.username, newUser.password, newUser.isAdmin, newUser.isApproved)
      ensures users == old(users) + [user] && userId == old(userId) + 1
      ensures forall u :: u in old(users) ==> u.id < user.id
      ensures QueueTable() == old(QueueTable()) && Flags() == old(Flags())
      ensures currentNumber == old(currentNumber) && lastNumber == old(lastNumber)
      ensures lastCalledAt == old(lastCalledAt)
    {
      var id := userId;
      userId := userId + 1;
      user := User(id, newUser.username, newUser.password, newUser.isAdmin, newUser.isApproved);
      users := users + [user];
    }

    // ---------------- queue items

    function GetQueueItem(number: int): (r: Option<QueueItem>)
      reads this
      requires Valid()
      ensures r.Some? <==> number in items
      ensures r.Some? ==> r.value == items[number] && r.value.number == number
    {
      if number in items then Some(items[number]) else None
    }

    /** All items, ascending by number. */
    function GetQueueItems(): (r: seq<QueueItem>)
      reads this
      requires Valid()
      ensures StrictlySortedBy(r, NumberOf)
      ensures forall x :: x in r <==> x.number in items && items[x.number] == x
      ensures |r| == |items|
    {
      SortedItems(order, items)
    }

    /** Exactly the items with the given status, ascending by number. */
    function GetQueueItemsByStatus(status: Status): (r: seq<QueueItem>)
      reads this
      requires Valid()
      ensures StrictlySortedBy(r, NumberOf)
      ensures forall x :: x in r <==> x.number in items && items[x.number] == x && x.status == status
    {
      SortedItemsWithStatus(order, items, status)
    }

    method IncrementLastNumber() returns (n: int)
      requires Valid()
      modifies this
      ensures Valid()
      ensures lastNumber == old(lastNumber) + 1 && n == lastNumber
      ensures QueueTable() == old(QueueTable()) && UserTable() == old(UserTable()) && Flags() == old(Flags())
      ensures currentNumber == old(currentNumber) && lastCalledAt == old(lastCalledAt)
    {
      lastNumber := lastNumber + 1;
      n := lastNumber;
    }

    /** Stores a new item. An absent or zero `number` (both falsy) takes the
        next ticket number; an absent status is `waiting`. An explicit number
        that already exists overwrites that item in place. */
    method CreateQueueItem(number: Option<int>, status: Option<Status>, now: Time) returns (item: QueueItem)
      requires Valid()
      modifies this
      ensures Valid()
      ensures number.None? || number.value == 0 ==> lastNumber == old(lastNumber) + 1 && item.number == lastNumber
      ensures number.Some? && number.value != 0 ==> lastNumber == old(lastNumber) && item.number == number.value
      ensures item.id == item.number && item.issuedAt == now
      ensures item.status == (if status.Some? then status.value else Waiting)
      ensures items == old(items)[item.number := item]
      ensures order == if item.number in old(items) then old(order) else old(order) + [item.number]
      ensures UserTable() == old(UserTable()) && Flags() == old(Flags())
      ensures currentNumber == old(currentNumber) && lastCalledAt == old(lastCalledAt)
    {
      var n: int;
      if number.Some? && number.value != 0 {
        n := number.value;
      } else {
        n := IncrementLastNumber();
      }
      item := QueueItem(n, n, if status.Some? then status.value else Waiting, now);
      if n !in items {
        order := order + [n];
      }
      items := items[n := item];
    }

    /** Replaces the status of an existing item; `None` (`undefined`) when the
        number is not stored. */
    method UpdateQueueItemStatus(number: int, status: Status) returns (r: Option<QueueItem>)
      requires Valid()
      modifies this
      ensures Valid()
      ensures r.Some? <==> number in old(items)
      ensures number !in old(items) ==> items == old(items)
      ensures number in old(items) ==>
                r.value == old(items)[number].(status := status) && items == old(items)[number := r.value]
      ensures order == old(order) && UserTable() == old(UserTable()) && Flags() == old(Flags())
      ensures currentNumber == old(currentNumber) && lastNumber == old(lastNumber)
      ensures lastCalledAt == old(lastCalledAt)
    {
      if number !in items {
        return None;
      }
      var updated := items[number].(status := status);
      items := items[number := updated];
      r := Some(updated);
    }

    /** `Map.delete`: true exactly when the number was stored. */
    method DeleteQueueItem(number: int) returns (deleted: bool)
      requires Valid()
      modifies this
      ensures Valid()
      ensures deleted == (number in old(items))
      ensures items == old(items) - {number}
      ensures order == Without(old(order), number)
      ensures UserTable() == old(UserTable()) && Flags() == old(Flags())
      ensures currentNumber == old(currentNumber) && lastNumber == old(lastNumber)
      ensures lastCalledAt == old(lastCalledAt)
    {
      deleted := number in items;
      WithoutDistinct(order, number);
      assert forall k :: k in Without(order, number) <==> k in multiset(Without(order, number));
      order := Without(order, number);
      items := items - {number};
    }

    /** Makes `number` current and stamps the call time; a positive number
        that is stored becomes `serving`. The previously current item keeps
        its status. */
    method SetCurrentNumber(number: int, now: Time)
      requires Valid()
      modifies this
      ensures Valid()
      ensures currentNumber == number && lastCalledAt == Some(now)
      ensures items == if number > 0 && number in old(items)
                       then old(items)[number := old(items)[number].(status := Serving)]
                       else old(items)
      ensures order == old(order) && UserTable() == old(UserTable()) && Flags() == old(Flags())
      ensures lastNumber == old(lastNumber)
    {
      currentNumber := number;
      lastCalledAt := Some(now);
      if number > 0 {
        var _ := UpdateQueueItemStatus(number, Serving);
      }
    }

    /** Empties the queue and restarts numbering; users and flags stay. */
    method ResetQueue()
      requires Valid()
      modifies this
      ensures Valid()
      ensures items == map[] && order == []
      ensures currentNumber == 0 && lastNumber == 0 && lastCalledAt == None
      ensures UserTable() == old(UserTable()) && Flags() == old(Flags())
    {
      currentNumber := 0;
      lastNumber := 0;
      lastCalledAt := None;
      items := map[];
      order := [];
    }

    method SetSoundEnabled(enabled: bool)
      modifies this
      ensures soundEnabled == enabled && visualAlertsEnabled == old(visualAlertsEnabled)
      ensures QueueTable() == old(QueueTable()) && UserTable() == old(UserTable())
      ensures currentNumber == old(currentNumber) && lastNumber == old(lastNumber)
      ensures lastCalledAt == old(lastCalledAt)
    {
      soundEnabled := enabled;
    }

    method SetVisualAlertsEnabled(enabled: bool)
      modifies this
      ensures visualAlertsEnabled == enabled && soundEnabled == old(soundEnabled)
      ensures QueueTable() == old(QueueTable()) && UserTable() == old(UserTable())
      ensures currentNumber == old(currentNumber) && lastNumber == old(lastNumber)
      ensures lastCalledAt == old(lastCalledAt)
    {
      visualAlertsEnabled := enabled;
    }

    // ---------------- status projection

    function GetQueueStatus(): (st: QueueStatus)
      reads this
      requires Valid()
      ensures st.currentNumber == currentNumber && st.lastCalledAt == lastCalledAt
      ensures st.waitingCount == |st.nextNumbers| == |WaitingSet(items)|
      ensures StrictlyAscending(st.nextNumbers)
      ensures forall n :: n in st.nextNumbers <==> n in items && items[n].status == Waiting
      ensures |st.queueItems| == |order| == |items|
      ensures forall i :: 0 <= i < |order| ==> st.queueItems[i] == View(items[order[i]])
    {
      Project(order, items, currentNumber, lastCalledAt)
    }
  }
}
