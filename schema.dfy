/** The shapes of the records the server stores and sends: queue items, users
    and the status projection sent to clients. */
module Schema {
  import opened Common

  /** A clock reading (`new Date()`); only compared for equality, never inspected. */
  type Time = int

  /** The three values the `status` column takes. */
  datatype Status = Waiting | Serving | Completed

  /** The status as the string stored in the item and sent to clients. */
  function StatusName(s: Status): (t: string) {
    match s
    case Waiting => "waiting"
    case Serving => "serving"
    case Completed => "completed"
  }

  lemma StatusNameInjective(a: Status, b: Status)
    requires StatusName(a) == StatusName(b)
    ensures a == b
  {
  }

  /** A row of the queue table: `id` is always set to `number`. */
  datatype QueueItem = QueueItem(id: int, number: int, status: Status, issuedAt: Time)

  function NumberOf(item: QueueItem): (n: int) { item.number }

  /** The fields a new user is created from. */
  datatype NewUser = NewUser(username: string, password: string, isAdmin: bool, isApproved: bool)

  datatype User = User(id: int, username: string, password: string, isAdmin: bool, isApproved: bool)

  /** One entry of `queueItems` in the status projection; the issue time is
      sent formatted, which is modelled by passing the clock reading on. */
  datatype ItemView = ItemView(number: int, status: Status, issuedAt: Time)

  /** The status projection (`QueueStatus`). */
  datatype QueueStatus = QueueStatus(
    currentNumber: int,
    nextNumbers: seq<int>,
    waitingCount: int,
    queueItems: seq<ItemView>,
    lastCalledAt: Option<Time>)

  ghost predicate StrictlyAscending(s: seq<int>) {
    forall i, j :: 0 <= i < j < |s| ==> s[i] < s[j]
  }
}
