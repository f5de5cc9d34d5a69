/**
  The persistent record shapes of the ticket application (users, events,
  tickets, orders), the order status enumeration, the `__str__` renderings
  and the in-memory `Event` instance that the event serializer updates.
*/
module Models {
  import opened Results

  /** A moment in time: its calendar day (days since an epoch) and the second within that day. */
  datatype DateTime = DateTime(day: int, second: nat)

  /** The integer choices of an order's `status` column. */
  datatype Status = Pending | Confirmed | Failed | Expired {

    /** The integer stored for this choice. */
    function Code(): (c: int)
      ensures 1 <= c <= 4
    {
      match this
      case Pending => 1
      case Confirmed => 2
      case Failed => 3
      case Expired => 4
    }

    /** The human-readable label of this choice: the one the choices pair with its code. */
    function Label(): (l: string)
      ensures (Code(), l) in Choices
    {
      match this
      case Pending => "Pending"
      case Confirmed => "Confirmed"
      case Failed => "Failed"
      case Expired => "Expired"
    }
  }

  /** The `choices` of the status column: each code with its label. */
  const Choices: seq<(int, string)> := [(1, "Pending"), (2, "Confirmed"), (3, "Failed"), (4, "Expired")]

  /** The status a new order gets when none is given. */
  const DefaultStatus: Status := Pending

  /** The choice whose code is `code`, if there is one. */
  function StatusOf(code: int): (r: Option<Status>)
    ensures r.Some? <==> 1 <= code <= 4
    ensures r.Some? ==> r.value.Code() == code
  {
    if code == 1 then Some(Pending)
    else if code == 2 then Some(Confirmed)
    else if code == 3 then Some(Failed)
    else if code == 4 then Some(Expired)
    else None
  }

  /** Every status is recovered from its code, so the four codes are pairwise distinct. */
  lemma StatusCodeRoundTrip(s: Status)
    ensures StatusOf(s.Code()) == Some(s)
    ensures forall t: Status :: t.Code() == s.Code() ==> t == s
  {
  }

  /* Decimal rendering of integers, as Python's `str` of an int. */

  function DigitChar(d: nat): (c: char)
    requires d < 10
    ensures '0' <= c <= '9'
  {
    "0123456789"[d]
  }

  function DigitValue(c: char): nat
  {
    if '0' <= c <= '9' then (c - '0') as nat else 0
  }

  predicate AllDigits(s: string)
  {
    forall i :: 0 <= i < |s| ==> '0' <= s[i] <= '9'
  }

  /** The decimal digits of `n`, most significant first, without leading zeros. */
  function NatToDecimal(n: nat): (s: string)
    ensures 1 <= |s| && AllDigits(s)
    ensures |s| > 1 ==> s[0] != '0'
    decreases n
  {
    if n < 10 then [DigitChar(n)] else NatToDecimal(n / 10) + [DigitChar(n % 10)]
  }

  /** The value of a string of decimal digits. */
  function DecimalValue(s: string): nat
    decreases |s|
  {
    if s == [] then 0 else 10 * DecimalValue(s[..|s| - 1]) + DigitValue(s[|s| - 1])
  }

  /** Reading back the rendering of `n` gives `n`. */
  lemma {:induction false} DecimalRoundTrip(n: nat)
    ensures DecimalValue(NatToDecimal(n)) == n
    decreases n
  {
    var s := NatToDecimal(n);
    if n < 10 {
      assert s[..|s| - 1] == [];
    } else {
      DecimalRoundTrip(n / 10);
      assert s[..|s| - 1] == NatToDecimal(n / 10);
    }
  }

  /** `str` of an int: a minus sign before the digits of a negative value. */
  function IntToDecimal(i: int): string
  {
    if i < 0 then "-" + NatToDecimal(-i) else NatToDecimal(i)
  }

  /** `get_status_display()`: the label of a known code, else the code itself as text. */
  function StatusDisplay(code: int): (r: string)
    ensures StatusOf(code).Some? ==> (code, r) in Choices
    ensures StatusOf(code).None? && code >= 0 ==>
      && 1 <= |r| && AllDigits(r) && (|r| > 1 ==> r[0] != '0') && DecimalValue(r) == code
    ensures code < 0 ==>
      && |r| > 1 && r[0] == '-' && AllDigits(r[1..]) && (|r| > 2 ==> r[1] != '0')
      && DecimalValue(r[1..]) == -code
  {
    DecimalRoundTrip(if code < 0 then -code else code);
    match StatusOf(code)
    case Some(s) => s.Label()
    case None => IntToDecimal(code)
  }

  /** The stored form of a password: blank (never set), or the hash of a raw password. */
  datatype Credential = Blank | Hashed(raw: string)

  /** A row of the user table (the fields the application declares or relies on). */
  datatype UserRow = UserRow(
    username: string,
    email: string,
    firstName: string,
    lastName: string,
    nativeName: string,
    phoneNo: Option<string>,
    password: Credential,
    isSuperuser: bool)

  /** A row of the event table. */
  datatype EventRow = EventRow(
    name: string,
    description: Option<string>,
    date: DateTime,
    location: string,
    availableTickets: int,
    totalTickets: int)

  /** A row of the ticket table: references to its event, order and user, and a quantity. */
  datatype TicketRow = TicketRow(event: nat, order: nat, user: nat, quantity: int)

  /** A row of the order table; `status` is the stored integer code. */
  datatype OrderRow = OrderRow(user: nat, status: int, createdAt: DateTime)

  /** Tickets already sold for an event: its capacity minus what is still available. */
  function Sold(e: EventRow): int
  {
    e.totalTickets - e.availableTickets
  }

  function UserStr(u: UserRow): string
  {
    u.username
  }

  function EventStr(e: EventRow): string
  {
    e.name
  }

  function TicketStr(event: EventRow, owner: UserRow): string
  {
    "Ticket for " + event.name + " - " + owner.email
  }

  lemma SplitConcat(a: string, b: string, c: string)
    ensures (a + b + c)[..|a|] == a
    ensures (a + b + c)[|a|..|a| + |b|] == b
    ensures (a + b + c)[|a| + |b|..] == c
  {
  }

  /** Where the parts of an order's rendering sit: the prefix, the id's digits,
      a separator, the e-mail, a second separator and the status display. */
  lemma RenderParts(digits: string, email: string, display: string)
    ensures var s, k, m := "Order " + digits + " - " + email + " - " + display, |digits|, |email|;
      && |s| == 12 + k + m + |display|
      && s[..6] == "Order " && s[6..6 + k] == digits
      && s[6 + k..9 + k] == " - "
      && s[9 + k..9 + k + m] == email
      && s[9 + k + m..12 + k + m] == " - "
      && s[12 + k + m..] == display
  {
    var s := "Order " + digits + " - " + email + " - " + display;
    var rest := " - " + email + " - " + display;
    assert s == "Order " + digits + rest;
    SplitConcat("Order ", digits, rest);
    var tail := " - " + display;
    assert rest == " - " + email + tail;
    SplitConcat(" - ", email, tail);
    assert tail[..3] == " - ";
    assert tail[3..] == display;
  }

  /** `Order.__str__`: "Order {id} - {email} - {status label}". The id can be
      read back from the digits after "Order ", and the owner's e-mail and the
      display of the order's status follow, each after a " - " separator. */
  function OrderStr(id: nat, o: OrderRow, owner: UserRow): (s: string)
    ensures var k, m, display := |NatToDecimal(id)|, |owner.email|, StatusDisplay(o.status);
      && |s| == 12 + k + m + |display|
      && s[..6] == "Order "
      && AllDigits(s[6..6 + k]) && DecimalValue(s[6..6 + k]) == id
      && s[6 + k..9 + k] == " - "
      && s[9 + k..9 + k + m] == owner.email
      && s[9 + k + m..12 + k + m] == " - "
      && s[12 + k + m..] == display
  {
    RenderParts(NatToDecimal(id), owner.email, StatusDisplay(o.status));
    DecimalRoundTrip(id);
    "Order " + NatToDecimal(id) + " - " + owner.email + " - " + StatusDisplay(o.status)
  }

  /**
    An event instance held in memory: the serializer changes its fields one by
    one before writing it back to the store.
  */
  class Event {
    const id: nat
    var name: string
    var description: Option<string>
    var date: DateTime
    var location: string
    var availableTickets: int
    var totalTickets: int

    /** The row this instance would be written as. */
    function Row(): (r: EventRow)
      reads this
    {
      EventRow(name, description, date, location, availableTickets, totalTickets)
    }

    /** An instance loaded from the row stored under `id`. */
    constructor Load(id: nat, row: EventRow)
      ensures this.id == id && Row() == row
    {
      this.id := id;
      name := row.name;
      description := row.description;
      date := row.date;
      location := row.location;
      availableTickets := row.availableTickets;
      totalTickets := row.totalTickets;
    }
  }
}
