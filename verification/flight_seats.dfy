/** The seat ledger of flight_seats.py: the seats of one flight kept as a
    singly linked list of seat nodes, numbered from 1, booked, cancelled and
    searched by walking the list from its head. */
module FlightSeats {

  datatype Option<T> = None | Some(value: T)

  /** What one seat node holds, as a value. */
  datatype Seat = Seat(seatNumber: int, passengerId: Option<int>, isBooked: bool)

  /** A seat exactly as a new node starts out: available, with no passenger. */
  function EmptySeat(seatNumber: int): Seat {
    Seat(seatNumber, None, false)
  }

  /** The seats a ledger of the given size starts with: 1 to size, in order. */
  function InitialSeats(size: int): (r: seq<Seat>)
    ensures |r| == if size < 0 then 0 else size
    decreases size
  {
    if size <= 0 then [] else InitialSeats(size - 1) + [EmptySeat(size)]
  }

  /** A fresh ledger numbers its seats 1 to size in list order, all of them
      available and without a passenger. */
  lemma {:induction false} InitialSeatsAt(size: int, i: int)
    requires 0 <= i < size
    ensures InitialSeats(size)[i] == EmptySeat(i + 1)
    decreases size
  {
    if i < size - 1 {
      InitialSeatsAt(size - 1, i);
    }
  }

  /** The index of the first seat carrying the number n, the one the linear
      search stops at. */
  function FindSeat(seats: seq<Seat>, n: int): (r: Option<nat>)
    ensures r.Some? ==> r.value < |seats| && seats[r.value].seatNumber == n
    ensures r.Some? ==> forall j :: 0 <= j < r.value ==> seats[j].seatNumber != n
    ensures r.None? <==> forall j :: 0 <= j < |seats| ==> seats[j].seatNumber != n
    decreases |seats|
  {
    if seats == [] then
      None
    else if seats[0].seatNumber == n then
      Some(0)
    else
      match FindSeat(seats[1..], n)
      case None => None
      case Some(i) => Some(i + 1)
  }

  /** The seats after `book_seat(n, pid)`: the first seat numbered n, when it
      is available, becomes booked by pid; anything else leaves the seats as
      they were. */
  function Booked(seats: seq<Seat>, n: int, pid: int): (r: seq<Seat>)
    ensures |r| == |seats|
    ensures forall j :: 0 <= j < |seats| ==> r[j].seatNumber == seats[j].seatNumber
    ensures FindSeat(seats, n).Some? ==> r[FindSeat(seats, n).value].isBooked
  {
    match FindSeat(seats, n)
    case Some(i) =>
      if seats[i].isBooked then seats else seats[i := seats[i].(isBooked := true, passengerId := Some(pid))]
    case None => seats
  }

  /** The seats after `cancel_seat_booking(n)`: the first seat numbered n,
      when it is booked, becomes available with no passenger. */
  function Cancelled(seats: seq<Seat>, n: int): (r: seq<Seat>)
    ensures |r| == |seats|
    ensures forall j :: 0 <= j < |seats| ==> r[j].seatNumber == seats[j].seatNumber
    ensures FindSeat(seats, n).Some? ==> !r[FindSeat(seats, n).value].isBooked
  {
    match FindSeat(seats, n)
    case Some(i) =>
      if seats[i].isBooked then seats[i := seats[i].(isBooked := false, passengerId := None)] else seats
    case None => seats
  }

  /** A seat is booked exactly when it has a passenger. */
  predicate Consistent(seats: seq<Seat>) {
    forall i :: 0 <= i < |seats| ==> (seats[i].isBooked <==> seats[i].passengerId.Some?)
  }

  /** Booking changes only the first seat numbered n: an available one gets
      booked by pid, a booked one keeps its passenger. */
  lemma BookedEffect(seats: seq<Seat>, n: int, pid: int)
    ensures |Booked(seats, n, pid)| == |seats|
    ensures forall j :: 0 <= j < |seats| && FindSeat(seats, n) != Some(j) ==> Booked(seats, n, pid)[j] == seats[j]
    ensures FindSeat(seats, n).Some? ==>
      var i := FindSeat(seats, n).value;
      && Booked(seats, n, pid)[i].seatNumber == n
      && Booked(seats, n, pid)[i].isBooked
      && (seats[i].isBooked ==> Booked(seats, n, pid)[i] == seats[i])
      && (!seats[i].isBooked ==> Booked(seats, n, pid)[i].passengerId == Some(pid))
  {
  }

  /** Cancelling changes only the first seat numbered n, which ends up
      available with no passenger. */
  lemma CancelledEffect(seats: seq<Seat>, n: int)
    ensures |Cancelled(seats, n)| == |seats|
    ensures forall j :: 0 <= j < |seats| && FindSeat(seats, n) != Some(j) ==> Cancelled(seats, n)[j] == seats[j]
    ensures FindSeat(seats, n).Some? ==>
      var i := FindSeat(seats, n).value;
      && Cancelled(seats, n)[i].seatNumber == n
      && !Cancelled(seats, n)[i].isBooked
      && (seats[i].isBooked ==> Cancelled(seats, n)[i].passengerId == None)
      && (!seats[i].isBooked ==> Cancelled(seats, n)[i] == seats[i])
  {
  }

  /** Booking and cancelling keep every seat's booked flag in step with its
      passenger. */
  lemma BookingKeepsConsistent(seats: seq<Seat>, n: int, pid: int)
    requires Consistent(seats)
    ensures Consistent(Booked(seats, n, pid)) && Consistent(Cancelled(seats, n))
  {
    BookedEffect(seats, n, pid);
    CancelledEffect(seats, n);
  }

  /** A second booking of the same seat is refused: the first passenger
      keeps it. */
  lemma BookTwice(seats: seq<Seat>, n: int, pid: int, other: int)
    ensures Booked(Booked(seats, n, pid), n, other) == Booked(seats, n, pid)
  {
    BookedEffect(seats, n, pid);
    var b := Booked(seats, n, pid);
    if FindSeat(seats, n).Some? {
      var i := FindSeat(seats, n).value;
      assert forall j :: 0 <= j < i ==> b[j] == seats[j];
      assert FindSeat(b, n) == Some(i);
    }
  }

  /** Cancelling undoes a booking of an available seat. */
  lemma CancelUndoesBook(seats: seq<Seat>, n: int, pid: int)
    requires Consistent(seats)
    requires FindSeat(seats, n).Some? && !seats[FindSeat(seats, n).value].isBooked
    ensures Cancelled(Booked(seats, n, pid), n) == seats
  {
    var i := FindSeat(seats, n).value;
    var b := Booked(seats, n, pid);
    BookedEffect(seats, n, pid);
    assert forall j :: 0 <= j < i ==> b[j] == seats[j];
    assert FindSeat(b, n) == Some(i);
  }

  /** Some seat of the flight can still be booked. */
  predicate AnyAvailable(seats: seq<Seat>) {
    exists i :: 0 <= i < |seats| && !seats[i].isBooked
  }

  /** A new flight with at least one seat has a seat available, and a seat
      is no longer available once booked. */
  lemma AvailabilityAfterBooking(size: int, seats: seq<Seat>, n: int, pid: int)
    ensures size > 0 ==> AnyAvailable(InitialSeats(size))
    ensures FindSeat(seats, n).Some? ==> Booked(seats, n, pid)[FindSeat(seats, n).value].isBooked
  {
    if size > 0 {
      InitialSeatsAt(size, 0);
    }
    BookedEffect(seats, n, pid);
  }

  /** `SeatNode`: one seat of the list. */
  class SeatNode {
    var seatNumber: int
    var passengerId: Option<int>
    var isBooked: bool
    var next: SeatNode?

    /** A new seat is available, has no passenger and ends the list. */
    constructor(seatNumber: int)
      ensures this.seatNumber == seatNumber && passengerId == None && !isBooked && next == null
    {
      this.seatNumber := seatNumber;
      passengerId := None;
      isBooked := false;
      next := null;
    }
  }

  /** `FlightSeatsList`: the linked list of a flight's seats. The ghost
      spine `nodes` lists the nodes from the head, and `seats` is what they
      hold. */
  class FlightSeatsList {
    var head: SeatNode?
    ghost var nodes: seq<SeatNode>
    ghost var seats: seq<Seat>
    ghost var Repr: set<object>

    ghost predicate Valid()
      reads this, Repr
    {
      && this in Repr
      && (forall i :: 0 <= i < |nodes| ==> nodes[i] in Repr)
      && (forall i, j :: 0 <= i < j < |nodes| ==> nodes[i] != nodes[j])
      && head == (if nodes == [] then null else nodes[0])
      && (forall i :: 0 <= i < |nodes| - 1 ==> nodes[i].next == nodes[i + 1])
      && (nodes != [] ==> nodes[|nodes| - 1].next == null)
      && |seats| == |nodes|
      && (forall i :: 0 <= i < |nodes| ==>
            seats[i] == Seat(nodes[i].seatNumber, nodes[i].passengerId, nodes[i].isBooked))
    }

    /** `__init__`: the seats 1 to size, added one by one at the tail. */
    constructor(size: int)
      ensures Valid() && fresh(Repr)
      ensures seats == InitialSeats(size)
    {
      head := null;
      nodes := [];
      seats := [];
      Repr := {this};
      new;
      var count := if size < 0 then 0 else size;
      for index := 0 to count
        invariant Valid() && fresh(Repr)
        invariant seats == InitialSeats(index)
      {
        AddSeat(index + 1);
      }
    }

    /** `add_seat`: walks to the last seat and links a new, available seat
        after it. */
    method AddSeat(seatNumber: int)
      requires Valid()
      modifies this, Repr
      ensures Valid() && fresh(Repr - old(Repr))
      ensures seats == old(seats) + [EmptySeat(seatNumber)]
    {
      var newSeat := new SeatNode(seatNumber);
      if head == null {
        head := newSeat;
        nodes := [newSeat];
        seats := [EmptySeat(seatNumber)];
        Repr := Repr + {newSeat};
      } else {
        var last := LastSeat();
        LinkAtTail(last, newSeat);
      }
    }

    /** The last step of `add_seat`: the last node's `next` now points at
        the new seat, which becomes the tail of the list. */
    method LinkAtTail(last: SeatNode, newSeat: SeatNode)
      requires Valid() && nodes != [] && last == nodes[|nodes| - 1]
      requires newSeat !in Repr && newSeat.next == null
      modifies this, last
      ensures Valid() && Repr == old(Repr) + {newSeat}
      ensures nodes == old(nodes) + [newSeat]
      ensures seats == old(seats) + [Seat(newSeat.seatNumber, newSeat.passengerId, newSeat.isBooked)]
    {
      ghost var n0 := nodes;
      last.next := newSeat;
      nodes := n0 + [newSeat];
      seats := seats + [Seat(newSeat.seatNumber, newSeat.passengerId, newSeat.isBooked)];
      Repr := Repr + {newSeat};
      forall i | 0 <= i < |nodes| - 1 ensures nodes[i].next == nodes[i + 1] {
        if i < |n0| - 1 {
          assert nodes[i] == n0[i] != last;
        }
      }
    }

    /** The walk of `add_seat` from the head to the node whose `next` is
        empty: the last node of the list. */
    method LastSeat() returns (last: SeatNode)
      requires Valid() && head != null
      ensures last == nodes[|nodes| - 1]
    {
      last := head;
      ghost var k := 0;
      while last.next != null
        invariant Valid()
        invariant 0 <= k < |nodes| && last == nodes[k]
        invariant k + 1 < |nodes| ==> last.next == nodes[k + 1]
        decreases |nodes| - k
      {
        last := last.next;
        k := k + 1;
      }
    }

    /** The search shared by `book_seat` and `cancel_seat_booking`: walks
        from the head to the first node numbered seatNumber, if any. */
    method FindNode(seatNumber: int) returns (current: SeatNode?, ghost k: int)
      requires Valid()
      ensures current == null <==> FindSeat(seats, seatNumber).None?
      ensures current != null ==> FindSeat(seats, seatNumber) == Some(k) && current == nodes[k]
    {
      current := head;
      k := 0;
      while current != null && current.seatNumber != seatNumber
        invariant Valid()
        invariant 0 <= k <= |nodes|
        invariant current == if k < |nodes| then nodes[k] else null
        invariant forall j :: 0 <= j < k ==> seats[j].seatNumber != seatNumber
        decreases |nodes| - k
      {
        current := current.next;
        k := k + 1;
      }
      if current != null {
        assert seats[k].seatNumber == seatNumber;
      }
    }

    /** `book_seat`: finds the first seat numbered seatNumber and books it
        for passengerId unless it is already booked. The answer is whether
        the seat exists, since a found seat is booked either way. */
    method BookSeat(seatNumber: int, passengerId: int) returns (ok: bool)
      requires Valid()
      modifies Repr
      ensures Valid() && Repr == old(Repr)
      ensures seats == Booked(old(seats), seatNumber, passengerId)
      ensures ok == FindSeat(old(seats), seatNumber).Some?
    {
      var current;
      ghost var k;
      current, k := FindNode(seatNumber);
      if current == null {
        return false;
      }
      if !current.isBooked {
        current.isBooked := true;
        current.passengerId := Some(passengerId);
        seats := seats[k := seats[k].(isBooked := true, passengerId := Some(passengerId))];
      }
      return current.isBooked;
    }

    /** `cancel_seat_booking`: finds the first seat numbered seatNumber and
        makes it available again. The answer is whether the seat exists,
        since a found seat ends up available either way. */
    method CancelSeatBooking(seatNumber: int) returns (ok: bool)
      requires Valid()
      modifies Repr
      ensures Valid() && Repr == old(Repr)
      ensures seats == Cancelled(old(seats), seatNumber)
      ensures ok == FindSeat(old(seats), seatNumber).Some?
    {
      var current;
      ghost var k;
      current, k := FindNode(seatNumber);
      if current == null {
        return false;
      }
      if current.isBooked {
        current.isBooked := false;
        current.passengerId := None;
        seats := seats[k := seats[k].(isBooked := false, passengerId := None)];
      }
      return !current.isBooked;
    }

    /** `is_seat_available`: whether any seat is still available. */
    method IsSeatAvailable() returns (r: bool)
      requires Valid()
      ensures r == AnyAvailable(seats)
    {
      var current := head;
      ghost var k := 0;
      while current != null
        invariant Valid()
        invariant 0 <= k <= |nodes|
        invariant current == if k < |nodes| then nodes[k] else null
        invariant forall j :: 0 <= j < k ==> seats[j].isBooked
        decreases |nodes| - k
      {
        if !current.isBooked {
          return true;
        }
        current := current.next;
        k := k + 1;
      }
      return false;
    }
  }
}
