/** A working day at the counter, run against the server model: three
    tickets, two calls with a completion between them, a removal, a reset and
    a new first ticket. Each step is its own method, stating the store it
    leaves behind. */
module Workday {
  import opened Common
  import opened Schema
  import opened Storage
  import opened Routes

  /** Tickets 1 to 3, issued at `now`, with the given statuses. */
  function ThreeTickets(now: Time, s1: Status, s2: Status, s3: Status): (m: map<int, QueueItem>)
    ensures m.Keys == {1, 2, 3}
  {
    map[1 := QueueItem(1, 1, s1, now), 2 := QueueItem(2, 2, s2, now), 3 := QueueItem(3, 3, s3, now)]
  }

  /** Among three tickets, the next waiting one is the first that waits. */
  lemma NextOfThree(now: Time, s1: Status, s2: Status, s3: Status, n: int)
    requires IsNextWaiting(ThreeTickets(now, s1, s2, s3), n)
    ensures s1 == Waiting ==> n == 1
    ensures s1 != Waiting && s2 == Waiting ==> n == 2
  {
    var m := ThreeTickets(now, s1, s2, s3);
    assert m[1].status == s1 && m[2].status == s2;
  }

  /** Giving ticket 1 or 2 a new status changes only that entry. */
  lemma StatusOfOne(now: Time, s1: Status, s2: Status, s3: Status, t: Status)
    ensures WithStatus(ThreeTickets(now, s1, s2, s3), 1, t) == ThreeTickets(now, t, s2, s3)
  {
  }

  lemma StatusOfTwo(now: Time, s1: Status, s2: Status, s3: Status, t: Status)
    ensures WithStatus(ThreeTickets(now, s1, s2, s3), 2, t) == ThreeTickets(now, s1, t, s3)
  {
  }

  /** Removing ticket 3 leaves tickets 1 and 2 as they were. */
  lemma WithoutThird(now: Time, s1: Status, s2: Status)
    ensures ThreeTickets(now, s1, s2, Waiting) - {3} == map[1 := QueueItem(1, 1, s1, now), 2 := QueueItem(2, 2, s2, now)]
  {
  }

  /** A fresh server issues ticket 1. */
  method IssueFirst(server: QueueServer, now: Time) returns (first: Response)
    requires server.Valid()
    requires server.storage.items == map[] && server.storage.lastNumber == 0
    modifies server, server.storage
    ensures server.Valid()
    ensures first == Ticket(QueueItem(1, 1, Waiting, now))
    ensures server.storage.items == map[1 := QueueItem(1, 1, Waiting, now)]
    ensures server.storage.lastNumber == 1
  {
    first := server.NewTicket(now, {});
  }

  /** The next ticket is 2. */
  method IssueSecond(server: QueueServer, now: Time) returns (second: Response)
    requires server.Valid()
    requires server.storage.items == map[1 := QueueItem(1, 1, Waiting, now)]
    requires server.storage.lastNumber == 1
    modifies server, server.storage
    ensures server.Valid()
    ensures second == Ticket(QueueItem(2, 2, Waiting, now))
    ensures server.storage.items == map[1 := QueueItem(1, 1, Waiting, now), 2 := QueueItem(2, 2, Waiting, now)]
    ensures server.storage.lastNumber == 2
  {
    second := server.NewTicket(now, {});
  }

  /** The next ticket is 3. */
  method IssueThird(server: QueueServer, now: Time) returns (third: Response)
    requires server.Valid()
    requires server.storage.items == map[1 := QueueItem(1, 1, Waiting, now), 2 := QueueItem(2, 2, Waiting, now)]
    requires server.storage.lastNumber == 2
    modifies server, server.storage
    ensures server.Valid()
    ensures third == Ticket(QueueItem(3, 3, Waiting, now))
    ensures server.storage.items == ThreeTickets(now, Waiting, Waiting, Waiting)
  {
    third := server.NewTicket(now, {});
  }

  /** Calling next serves the smallest waiting ticket, 1. */
  method CallFirst(server: QueueServer, now: Time) returns (firstCall: Response)
    requires server.Valid()
    requires server.storage.items == ThreeTickets(now, Waiting, Waiting, Waiting)
    modifies server, server.storage
    ensures server.Valid()
    ensures firstCall == Called(1)
    ensures server.storage.items == ThreeTickets(now, Serving, Waiting, Waiting)
  {
    assert server.storage.items[1].status == Waiting;
    firstCall := server.CallNext(now, {});
    NextOfThree(now, Waiting, Waiting, Waiting, firstCall.currentNumber);
    StatusOfOne(now, Waiting, Waiting, Waiting, Serving);
  }

  /** Ticket 1 is completed; the others are untouched. */
  method CompleteFirst(server: QueueServer, now: Time)
    requires server.Valid()
    requires server.storage.items == ThreeTickets(now, Serving, Waiting, Waiting)
    modifies server, server.storage
    ensures server.Valid()
    ensures server.storage.items == ThreeTickets(now, Completed, Waiting, Waiting)
  {
    var completed := server.Complete(Some(1), {});
    StatusOfOne(now, Serving, Waiting, Waiting, Completed);
  }

  /** The completed ticket is skipped: calling next serves 2. */
  method CallSecond(server: QueueServer, now: Time) returns (secondCall: Response)
    requires server.Valid()
    requires server.storage.items == ThreeTickets(now, Completed, Waiting, Waiting)
    modifies server, server.storage
    ensures server.Valid()
    ensures secondCall == Called(2)
    ensures server.storage.items == ThreeTickets(now, Completed, Serving, Waiting)
  {
    assert server.storage.items[2].status == Waiting;
    secondCall := server.CallNext(now, {});
    NextOfThree(now, Completed, Waiting, Waiting, secondCall.currentNumber);
    StatusOfTwo(now, Completed, Waiting, Waiting, Serving);
  }

  /** Removing ticket 3 leaves 1 and 2. */
  method RemoveThird(server: QueueServer, now: Time)
    requires server.Valid()
    requires server.storage.items == ThreeTickets(now, Completed, Serving, Waiting)
    modifies server, server.storage
    ensures server.Valid()
    ensures server.storage.items == map[1 := QueueItem(1, 1, Completed, now), 2 := QueueItem(2, 2, Serving, now)]
  {
    assert 3 in server.storage.items;
    var removed := server.Remove(Some(3), now, {});
    WithoutThird(now, Completed, Serving);
  }

  /** Then nobody is waiting. */
  method CountWaiting(server: QueueServer, now: Time) returns (waiting: int)
    requires server.Valid()
    requires server.storage.items == map[1 := QueueItem(1, 1, Completed, now), 2 := QueueItem(2, 2, Serving, now)]
    ensures waiting == 0
  {
    var status := server.GetStatus();
    NoMemberMeansEmpty(status.status.nextNumbers);
    waiting := status.status.waitingCount;
  }

  /** A reset empties the queue and restarts numbering. */
  method ResetDay(server: QueueServer)
    requires server.Valid()
    modifies server, server.storage
    ensures server.Valid()
    ensures server.storage.items == map[] && server.storage.lastNumber == 0
  {
    var reset := server.Reset({});
  }

  /** After the reset the first ticket is 1 again. */
  method IssueAfterReset(server: QueueServer, now: Time) returns (ticket: Response)
    requires server.Valid()
    requires server.storage.items == map[] && server.storage.lastNumber == 0
    modifies server, server.storage
    ensures ticket == Ticket(QueueItem(1, 1, Waiting, now))
  {
    ticket := server.NewTicket(now, {});
  }

  /** The whole day, step by step. */
  method Walkthrough(now: Time) returns (first: Response, third: Response, firstCall: Response,
                                        secondCall: Response, waitingAtEnd: int, afterReset: Response)
    ensures first == Ticket(QueueItem(1, 1, Waiting, now))
    ensures third == Ticket(QueueItem(3, 3, Waiting, now))
    ensures firstCall == Called(1)
    ensures secondCall == Called(2)
    ensures waitingAtEnd == 0
    ensures afterReset == Ticket(QueueItem(1, 1, Waiting, now))
  {
    var server := new QueueServer();
    first := IssueFirst(server, now);
    var second := IssueSecond(server, now);
    third := IssueThird(server, now);
    firstCall := CallFirst(server, now);
    CompleteFirst(server, now);
    secondCall := CallSecond(server, now);
    RemoveThird(server, now);
    waitingAtEnd := CountWaiting(server, now);
    ResetDay(server);
    afterReset := IssueAfterReset(server, now);
  }
}
