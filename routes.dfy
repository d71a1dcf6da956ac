/** The queue server of server/routes.ts: the queue, settings and
    user-creation handlers over the store, and the registry of connected
    WebSocket clients that every queue change is broadcast to. */
module Routes {
  import opened Common
  import opened Schema
  import opened Storage

  /** A connected WebSocket, identified by its object identity. */
  type ClientId = int

  /** `{ type: "QUEUE_UPDATE", data: status }`; its JSON text is left abstract. */
  datatype Message = QueueUpdate(data: QueueStatus)

  /** One `ws.send(message)`. */
  datatype Delivery = Delivery(client: ClientId, message: Message)

  /** An HTTP response: its status code and the body's distinguishing part. */
  datatype Response =
    | Ticket(item: QueueItem)               // 200, the new queue item
    | Called(currentNumber: int)            // 200, { success, currentNumber }
    | Success                               // 200, { success: true }
    | StatusReport(status: QueueStatus)     // 200, the projection
    | UserCreated(user: User)               // 200, the new user
    | BadRequest(error: string)             // 400
    | NotFound(error: string)               // 404

  const NoMoreNumbers := "No more numbers in queue"
  const InvalidNumber := "Invalid number format"
  const ItemNotFound := "Queue item not found"
  const InvalidEnabled := "Invalid enabled value"
  const CredentialsRequired := "Username and password are required"
  const UsernameTaken := "Username already exists"

  /** `client.readyState === WebSocket.OPEN`, as a filter predicate. */
  function IsOpen(open: set<ClientId>): (f: ClientId -> bool) {
    c => c in open
  }

  /** The sends of one broadcast: one message to each registered client whose
      `readyState` is `OPEN`, in registration order. */
  function Deliveries(clients: seq<ClientId>, open: set<ClientId>, message: Message): (r: seq<Delivery>)
    ensures |r| == |Filter(clients, IsOpen(open))| <= |clients|
    ensures forall i :: 0 <= i < |r| ==> r[i] == Delivery(Filter(clients, IsOpen(open))[i], message)
  {
    if clients == [] then []
    else
      var init, last := clients[..|clients| - 1], clients[|clients| - 1];
      assert clients == init + [last];
      FilterSnoc(init, last, IsOpen(open));
      Deliveries(init, open, message) + (if last in open then [Delivery(last, message)] else [])
  }

  /** One more registered client adds at most its own send. */
  /** The `forEach` of `broadcastQueueUpdate`: walks the registry in order
      and sends `message` to each client whose socket is open. */
  method SendToOpen(clients: seq<ClientId>, open: set<ClientId>, message: Message) returns (sent: seq<Delivery>)
    ensures sent == Deliveries(clients, open, message)
  {
    sent := [];
    var i := 0;
    while i < |clients|
      invariant 0 <= i <= |clients|
      invariant sent == Deliveries(clients[..i], open, message)
    {
      DeliveriesStep(clients, i, open, message);
      if clients[i] in open {
        sent := sent + [Delivery(clients[i], message)];
      }
      i := i + 1;
    }
    assert clients[..i] == clients;
  }

  lemma DeliveriesStep(clients: seq<ClientId>, i: nat, open: set<ClientId>, message: Message)
    requires i < |clients|
    ensures Deliveries(clients[..i + 1], open, message)
            == Deliveries(clients[..i], open, message)
               + (if clients[i] in open then [Delivery(clients[i], message)] else [])
  {
    assert clients[..i + 1][..i] == clients[..i];
  }

  /** A broadcast sends the same message, exactly to the open registered clients. */
  lemma {:induction false} DeliveriesExactlyOpen(clients: seq<ClientId>, open: set<ClientId>, message: Message)
    ensures forall d :: d in Deliveries(clients, open, message) ==> d.message == message
    ensures forall c :: (exists d :: d in Deliveries(clients, open, message) && d.client == c)
                        <==> c in clients && c in open
  {
    if clients != [] {
      var init, last := clients[..|clients| - 1], clients[|clients| - 1];
      DeliveriesExactlyOpen(init, open, message);
      assert clients == init + [last];
      var r := Deliveries(clients, open, message);
      forall c ensures (exists d :: d in r && d.client == c) <==> c in clients && c in open {
        if c in clients && c in open {
          if c == last {
            assert Delivery(last, message) in r;
          } else {
            assert c in init;
            var d :| d in Deliveries(init, open, message) && d.client == c;
            assert d in r;
          }
        }
      }
    }
  }

  /** What the handlers keep true of the queue: the last number issued is not
      negative, every ticket number is positive and no larger than it, and the
      current number is 0 or a stored ticket that is no longer waiting. */
  ghost predicate QueueShape(items: map<int, QueueItem>, lastNumber: int, currentNumber: int) {
    && 0 <= lastNumber
    && (forall k :: k in items ==> 0 < k <= lastNumber)
    && (currentNumber == 0 || (currentNumber in items && items[currentNumber].status != Waiting))
  }

  /** The store is well formed and its queue has that shape. */
  ghost predicate QueueInvariant(s: MemStorage)
    reads s
  {
    s.Valid() && QueueShape(s.items, s.lastNumber, s.currentNumber)
  }

  /** Issuing `lastNumber + 1` keeps the shape, and that number is new and
      above every stored one. */
  lemma IssueKeepsShape(items: map<int, QueueItem>, lastNumber: int, currentNumber: int, item: QueueItem)
    requires QueueShape(items, lastNumber, currentNumber)
    requires item.number == lastNumber + 1
    ensures QueueShape(items[item.number := item], lastNumber + 1, currentNumber)
    ensures item.number !in items && forall k :: k in items ==> k < item.number
  {
  }

  /** Calling a stored ticket makes it serving and current, which keeps the shape. */
  lemma CallKeepsShape(items: map<int, QueueItem>, lastNumber: int, currentNumber: int, n: int)
    requires QueueShape(items, lastNumber, currentNumber)
    requires n in items
    ensures QueueShape(WithStatus(items, n, Serving), lastNumber, n)
  {
  }

  /** Completing a stored ticket keeps the shape. */
  lemma CompleteKeepsShape(items: map<int, QueueItem>, lastNumber: int, currentNumber: int, n: int)
    requires QueueShape(items, lastNumber, currentNumber)
    requires n in items
    ensures QueueShape(WithStatus(items, n, Completed), lastNumber, currentNumber)
  {
  }

  /** Deleting a ticket keeps the shape once a current number that pointed at
      it is reset to 0. */
  lemma RemoveKeepsShape(items: map<int, QueueItem>, lastNumber: int, currentNumber: int, n: int)
    requires QueueShape(items, lastNumber, currentNumber)
    ensures QueueShape(items - {n}, lastNumber, if currentNumber == n then 0 else currentNumber)
  {
  }

  ghost predicate HasWaiting(items: map<int, QueueItem>) {
    exists k :: k in items && items[k].status == Waiting
  }

  /** `n` is the smallest waiting ticket number. */
  ghost predicate IsNextWaiting(items: map<int, QueueItem>, n: int) {
    && n in items && items[n].status == Waiting
    && forall k :: k in items && items[k].status == Waiting ==> n <= k
  }

  /** The item with a new status and nothing else changed. */
  function WithStatus(items: map<int, QueueItem>, n: int, status: Status): (r: map<int, QueueItem>)
    requires n in items
  {
    items[n := items[n].(status := status)]
  }

  /** The waiting list is empty exactly when no stored ticket waits. */
  lemma WaitingListEmpty(nextNumbers: seq<int>, items: map<int, QueueItem>)
    requires forall n :: n in nextNumbers <==> n in items && items[n].status == Waiting
    ensures nextNumbers == [] <==> !HasWaiting(items)
  {
    if nextNumbers != [] {
      var n := nextNumbers[0];
      assert n in nextNumbers;
      assert n in items && items[n].status == Waiting;
    }
    if HasWaiting(items) {
      var k :| k in items && items[k].status == Waiting;
      assert k in nextNumbers;
    }
  }

  /** The head of the ascending waiting list is the smallest waiting ticket. */
  lemma HeadIsNextWaiting(nextNumbers: seq<int>, items: map<int, QueueItem>)
    requires StrictlyAscending(nextNumbers) && nextNumbers != []
    requires forall n :: n in nextNumbers <==> n in items && items[n].status == Waiting
    ensures IsNextWaiting(items, nextNumbers[0])
  {
    assert nextNumbers[0] in nextNumbers;
    forall k | k in items && items[k].status == Waiting ensures nextNumbers[0] <= k {
      var j :| 0 <= j < |nextNumbers| && nextNumbers[j] == k;
      assert j == 0 || nextNumbers[0] < nextNumbers[j];
    }
  }

  lemma NoMemberMeansEmpty<T>(s: seq<T>)
    ensures (forall x :: x !in s) ==> s == []
  {
    if s != [] {
      assert s[0] in s;
    }
  }

  class QueueServer {
    const storage: MemStorage
    /** `wsClients` */
    var clients: seq<ClientId>
    /** everything sent so far, in order */
    var outbox: seq<Delivery>

    ghost predicate Valid()
      reads storage
    {
      QueueInvariant(storage)
    }

    constructor ()
      ensures Valid() && fresh(storage)
      ensures clients == [] && outbox == []
      ensures storage.items == map[] && storage.order == [] && storage.users == []
      ensures storage.currentNumber == 0 && storage.lastNumber == 0 && storage.lastCalledAt == None
      ensures storage.soundEnabled && storage.visualAlertsEnabled
    {
      storage := new MemStorage();
      clients := [];
      outbox := [];
    }

    /** The message the next broadcast sends. */
    function CurrentUpdate(): Message
      reads storage
      requires Valid()
    {
      QueueUpdate(storage.GetQueueStatus())
    }

    // ---------------- the observer registry

    /** A new connection is registered and sent the current status at once. */
    method Connect(client: ClientId)
      requires Valid()
      modifies this
      ensures Valid()
      ensures clients == old(clients) + [client]
      ensures outbox == old(outbox) + [Delivery(client, CurrentUpdate())]
    {
      clients := clients + [client];
      outbox := outbox + [Delivery(client, CurrentUpdate())];
    }

    /** On close, every occurrence of the client leaves the registry. */
    method Disconnect(client: ClientId)
      modifies this
      ensures clients == Without(old(clients), client)
      ensures outbox == old(outbox)
    {
      clients := Without(clients, client);
    }

    /** `broadcastQueueUpdate`: the current status to every open client. */
    method Broadcast(open: set<ClientId>)
      requires Valid()
      modifies this
      ensures Valid()
      ensures clients == old(clients)
      ensures outbox == old(outbox) + Deliveries(clients, open, CurrentUpdate())
    {
      var message := CurrentUpdate();
      var sent := SendToOpen(clients, open, message);
      outbox := outbox + sent;
      assert CurrentUpdate() == message;
    }

    // ---------------- queue handlers

    /** GET /api/queue/status */
    method GetStatus() returns (r: Response)
      requires Valid()
      ensures r == StatusReport(storage.GetQueueStatus())
      ensures r.status.currentNumber == storage.currentNumber
      ensures r.status.waitingCount == |r.status.nextNumbers|
      ensures forall n :: n in r.status.nextNumbers <==> n in storage.items && storage.items[n].status == Waiting
    {
      r := StatusReport(storage.GetQueueStatus());
    }

    /** POST /api/queue/new: issues the next ticket, waiting, and broadcasts. */
    method NewTicket(now: Time, open: set<ClientId>) returns (r: Response)
      requires Valid()
      modifies this, storage
      ensures Valid()
      ensures var n := old(storage.lastNumber) + 1;
        && r == Ticket(QueueItem(n, n, Waiting, now))
        && storage.lastNumber == n
        && n !in old(storage.items)
        && (forall k :: k in old(storage.items) ==> k < n)
        && storage.items == old(storage.items)[n := r.item]
        && storage.order == old(storage.order) + [n]
      ensures storage.currentNumber == old(storage.currentNumber)
      ensures storage.lastCalledAt == old(storage.lastCalledAt)
      ensures storage.UserTable() == old(storage.UserTable()) && storage.Flags() == old(storage.Flags())
      ensures clients == old(clients)
      ensures outbox == old(outbox) + Deliveries(clients, open, CurrentUpdate())
    {
      IssueKeepsShape(storage.items, storage.lastNumber, storage.currentNumber,
                      QueueItem(storage.lastNumber + 1, storage.lastNumber + 1, Waiting, now));
      var item := storage.CreateQueueItem(None, None, now);
      Broadcast(open);
      r := Ticket(item);
    }

    /** POST /api/queue/next: calls the smallest waiting number; 400 when none waits. */
    method CallNext(now: Time, open: set<ClientId>) returns (r: Response)
      requires Valid()
      modifies this, storage
      ensures Valid()
      ensures !HasWaiting(old(storage.items)) ==>
                r == BadRequest(NoMoreNumbers)
                && storage.QueueTable() == old(storage.QueueTable())
                && storage.currentNumber == old(storage.currentNumber)
                && storage.lastCalledAt == old(storage.lastCalledAt)
                && outbox == old(outbox)
      ensures HasWaiting(old(storage.items)) ==>
                r.Called?
                && IsNextWaiting(old(storage.items), r.currentNumber)
                && storage.currentNumber == r.currentNumber
                && storage.items == WithStatus(old(storage.items), r.currentNumber, Serving)
                && storage.order == old(storage.order)
                && storage.lastCalledAt == Some(now)
                && r.currentNumber !in CurrentUpdate().data.nextNumbers
                && outbox == old(outbox) + Deliveries(clients, open, CurrentUpdate())
      ensures storage.lastNumber == old(storage.lastNumber)
      ensures storage.UserTable() == old(storage.UserTable()) && storage.Flags() == old(storage.Flags())
      ensures clients == old(clients)
    {
      var status := storage.GetQueueStatus();
      WaitingListEmpty(status.nextNumbers, storage.items);
      if |status.nextNumbers| == 0 {
        return BadRequest(NoMoreNumbers);
      }
      var next := status.nextNumbers[0];
      HeadIsNextWaiting(status.nextNumbers, storage.items);
      CallTicket(next, now, open);
      r := Called(next);
    }

    /** POST /api/queue/call/:number: calls a stored ticket whatever its status;
        400 for a non-numeric parameter, 404 for an unknown ticket. */
    method CallSpecific(param: Option<int>, now: Time, open: set<ClientId>) returns (r: Response)
      requires Valid()
      modifies this, storage
      ensures Valid()
      ensures param.None? ==> r == BadRequest(InvalidNumber)
      ensures param.Some? && param.value !in old(storage.items) ==> r == NotFound(ItemNotFound)
      ensures !r.Called? ==>
                storage.QueueTable() == old(storage.QueueTable())
                && storage.currentNumber == old(storage.currentNumber)
                && storage.lastCalledAt == old(storage.lastCalledAt)
                && outbox == old(outbox)
      ensures param.Some? && param.value in old(storage.items) ==>
                r == Called(param.value)
                && r.currentNumber == param.value
                && storage.currentNumber == param.value
                && storage.items == WithStatus(old(storage.items), param.value, Serving)
                && storage.order == old(storage.order)
                && storage.lastCalledAt == Some(now)
                && r.currentNumber !in CurrentUpdate().data.nextNumbers
                && outbox == old(outbox) + Deliveries(clients, open, CurrentUpdate())
      ensures storage.lastNumber == old(storage.lastNumber)
      ensures storage.UserTable() == old(storage.UserTable()) && storage.Flags() == old(storage.Flags())
      ensures clients == old(clients)
    {
      if param.None? {
        return BadRequest(InvalidNumber);
      }
      var number := param.value;
      var item := storage.GetQueueItem(number);
      if item.None? {
        return NotFound(ItemNotFound);
      }
      CallTicket(number, now, open);
      r := Called(number);
    }

    /** What both call handlers do once they have a stored ticket: it
        becomes the one being served, and the change is broadcast. */
    method CallTicket(number: int, now: Time, open: set<ClientId>)
      requires Valid() && number in storage.items
      modifies this, storage
      ensures Valid()
      ensures storage.currentNumber == number
      ensures storage.items == WithStatus(old(storage.items), number, Serving)
      ensures storage.order == old(storage.order)
      ensures storage.lastCalledAt == Some(now)
      ensures number !in CurrentUpdate().data.nextNumbers
      ensures outbox == old(outbox) + Deliveries(clients, open, CurrentUpdate())
      ensures storage.lastNumber == old(storage.lastNumber)
      ensures storage.UserTable() == old(storage.UserTable()) && storage.Flags() == old(storage.Flags())
      ensures clients == old(clients)
    {
      CallKeepsShape(storage.items, storage.lastNumber, storage.currentNumber, number);
      storage.SetCurrentNumber(number, now);
      Broadcast(open);
    }

    /** POST /api/queue/complete/:number: the ticket becomes completed; the
        current number is not touched. */
    method Complete(param: Option<int>, open: set<ClientId>) returns (r: Response)
      requires Valid()
      modifies this, storage
      ensures Valid()
      ensures param.None? ==> r == BadRequest(InvalidNumber)
      ensures param.Some? && param.value !in old(storage.items) ==> r == NotFound(ItemNotFound)
      ensures !r.Success? ==> storage.QueueTable() == old(storage.QueueTable()) && outbox == old(outbox)
      ensures param.Some? && param.value in old(storage.items) ==>
                r == Success
                && storage.items == WithStatus(old(storage.items), param.value, Completed)
                && storage.order == old(storage.order)
                && outbox == old(outbox) + Deliveries(clients, open, CurrentUpdate())
      ensures storage.currentNumber == old(storage.currentNumber)
      ensures storage.lastNumber == old(storage.lastNumber)
      ensures storage.lastCalledAt == old(storage.lastCalledAt)
      ensures storage.UserTable() == old(storage.UserTable()) && storage.Flags() == old(storage.Flags())
      ensures clients == old(clients)
    {
      if param.None? {
        return BadRequest(InvalidNumber);
      }
      var number := param.value;
      if number in storage.items {
        CompleteKeepsShape(storage.items, storage.lastNumber, storage.currentNumber, number);
      }
      var item := storage.UpdateQueueItemStatus(number, Completed);
      if item.None? {
        return NotFound(ItemNotFound);
      }
      Broadcast(open);
      r := Success;
    }

    /** DELETE /api/queue/item/:number: removes the ticket; removing the
        current ticket resets the current number to 0 (and, as it goes through
        `setCurrentNumber`, stamps the call time). */
    method Remove(param: Option<int>, now: Time, open: set<ClientId>) returns (r: Response)
      requires Valid()
      modifies this, storage
      ensures Valid()
      ensures param.None? ==> r == BadRequest(InvalidNumber)
      ensures param.Some? && param.value !in old(storage.items) ==> r == NotFound(ItemNotFound)
      ensures !r.Success? ==>
                storage.QueueTable() == old(storage.QueueTable())
                && storage.currentNumber == old(storage.currentNumber)
                && storage.lastCalledAt == old(storage.lastCalledAt)
                && outbox == old(outbox)
      ensures param.Some? && param.value in old(storage.items) ==>
                r == Success
                && storage.items == old(storage.items) - {param.value}
                && storage.order == Without(old(storage.order), param.value)
                && storage.currentNumber == (if old(storage.currentNumber) == param.value then 0 else old(storage.currentNumber))
                && storage.lastCalledAt == (if old(storage.currentNumber) == param.value then Some(now) else old(storage.lastCalledAt))
                && outbox == old(outbox) + Deliveries(clients, open, CurrentUpdate())
      ensures storage.lastNumber == old(storage.lastNumber)
      ensures storage.UserTable() == old(storage.UserTable()) && storage.Flags() == old(storage.Flags())
      ensures clients == old(clients)
    {
      if param.None? {
        return BadRequest(InvalidNumber);
      }
      var number := param.value;
      RemoveKeepsShape(storage.items, storage.lastNumber, storage.currentNumber, number);
      var deleted := storage.DeleteQueueItem(number);
      if !deleted {
        WithoutAbsent(old(storage.order), number);
        assert storage.items == old(storage.items);
        return NotFound(ItemNotFound);
      }
      if storage.currentNumber == number {
        storage.SetCurrentNumber(0, now);
      }
      Broadcast(open);
      r := Success;
    }

    /** POST /api/queue/reset: empties the queue and restarts numbering. */
    method Reset(open: set<ClientId>) returns (r: Response)
      requires Valid()
      modifies this, storage
      ensures Valid()
      ensures r == Success
      ensures storage.items == map[] && storage.order == []
      ensures storage.currentNumber == 0 && storage.lastNumber == 0 && storage.lastCalledAt == None
      ensures storage.UserTable() == old(storage.UserTable()) && storage.Flags() == old(storage.Flags())
      ensures clients == old(clients)
      ensures outbox == old(outbox) + Deliveries(clients, open, CurrentUpdate())
    {
      storage.ResetQueue();
      Broadcast(open);
      r := Success;
    }

    // ---------------- settings handlers (no broadcast)

    /** POST /api/settings/sound; `enabled` is `None` when the body's value is
        not a boolean. */
    method SetSound(enabled: Option<bool>) returns (r: Response)
      requires Valid()
      modifies storage
      ensures Valid()
      ensures enabled.None? ==> r == BadRequest(InvalidEnabled) && storage.soundEnabled == old(storage.soundEnabled)
      ensures enabled.Some? ==> r == Success && storage.soundEnabled == enabled.value
      ensures storage.visualAlertsEnabled == old(storage.visualAlertsEnabled)
      ensures storage.QueueTable() == old(storage.QueueTable()) && storage.UserTable() == old(storage.UserTable())
      ensures storage.currentNumber == old(storage.currentNumber) && storage.lastNumber == old(storage.lastNumber)
      ensures storage.lastCalledAt == old(storage.lastCalledAt)
    {
      if enabled.None? {
        return BadRequest(InvalidEnabled);
      }
      storage.SetSoundEnabled(enabled.value);
      r := Success;
    }

    /** POST /api/settings/visual-alerts */
    method SetVisualAlerts(enabled: Option<bool>) returns (r: Response)
      requires Valid()
      modifies storage
      ensures Valid()
      ensures enabled.None? ==> r == BadRequest(InvalidEnabled) && storage.visualAlertsEnabled == old(storage.visualAlertsEnabled)
      ensures enabled.Some? ==> r == Success && storage.visualAlertsEnabled == enabled.value
      ensures storage.soundEnabled == old(storage.soundEnabled)
      ensures storage.QueueTable() == old(storage.QueueTable()) && storage.UserTable() == old(storage.UserTable())
      ensures storage.currentNumber == old(storage.currentNumber) && storage.lastNumber == old(storage.lastNumber)
      ensures storage.lastCalledAt == old(storage.lastCalledAt)
    {
      if enabled.None? {
        return BadRequest(InvalidEnabled);
      }
      storage.SetVisualAlertsEnabled(enabled.value);
      r := Success;
    }

    // ---------------- user creation

    /** POST /api/users. A missing or empty username or password is refused,
        and so is a name already taken; a new user is unapproved and is an
        admin only when `isAdmin` was exactly `true`. `None` stands for a
        missing field (for `isAdmin`, also for any non-boolean value). */
    method CreateUser(username: Option<string>, password: Option<string>, isAdmin: Option<bool>) returns (r: Response)
      requires Valid()
      modifies storage
      ensures Valid()
      ensures username.None? || username.value == "" || password.None? || password.value == "" ==>
                r == BadRequest(CredentialsRequired) && storage.users == old(storage.users)
      ensures username.Some? && username.value != "" && password.Some? && password.value != ""
              && (exists i :: 0 <= i < |old(storage.users)| && old(storage.users)[i].username == username.value) ==>
                r == BadRequest(UsernameTaken) && storage.users == old(storage.users)
      ensures username.Some? && username.value != "" && password.Some? && password.value != ""
              && !(exists i :: 0 <= i < |old(storage.users)| && old(storage.users)[i].username == username.value) ==>
                r.UserCreated?
      ensures r.UserCreated? ==>
                && r.user == User(old(storage.userId), username.value, password.value, isAdmin == Some(true), false)
                && storage.users == old(storage.users) + [r.user]
      ensures r.UserCreated? || r.BadRequest?
      ensures storage.QueueTable() == old(storage.QueueTable()) && storage.Flags() == old(storage.Flags())
      ensures storage.currentNumber == old(storage.currentNumber) && storage.lastNumber == old(storage.lastNumber)
      ensures storage.lastCalledAt == old(storage.lastCalledAt)
    {
      if username.None? || username.value == "" || password.None? || password.value == "" {
        return BadRequest(CredentialsRequired);
      }
      var existing := storage.GetUserByUsername(username.value);
      if existing.Some? {
        return BadRequest(UsernameTaken);
      }
      var user := storage.CreateUser(NewUser(username.value, password.value, isAdmin == Some(true), false));
      r := UserCreated(user);
    }
  }
}
