/**
  The serializers of the ticket application: user registration, the event
  update that keeps the available count in step with a new capacity, the
  ticket request check and the creation of an order with its tickets.
*/
module Serializers {
  import opened Results
  import opened Models
  import opened Store

  /* ---------------------------------------------------------------------- */
  /* Registration                                                            */
  /* ---------------------------------------------------------------------- */

  /** The shortest password the registration form accepts. */
  const MinPasswordLength: nat := 6

  /** A character Python's `str.isspace()` holds for, which `str.strip()` removes. */
  predicate IsSpace(c: char)
  {
    || c == ' ' || '\t' <= c <= '\r' || '\U{1c}' <= c <= '\U{1f}'
    || c == '\U{85}' || c == '\U{a0}' || c == '\U{1680}' || '\U{2000}' <= c <= '\U{200a}'
    || c == '\U{2028}' || c == '\U{2029}' || c == '\U{202f}' || c == '\U{205f}' || c == '\U{3000}'
  }

  predicate AllSpace(s: string)
  {
    forall i :: 0 <= i < |s| ==> IsSpace(s[i])
  }

  /** Neither end of `s` is whitespace. */
  predicate Trimmed(s: string)
  {
    s == [] || (!IsSpace(s[0]) && !IsSpace(s[|s| - 1]))
  }

  /** `s` without its leading whitespace. */
  function TrimStart(s: string): (r: string)
    ensures |r| <= |s| && r == s[|s| - |r|..]
    ensures r == [] || !IsSpace(r[0])
    decreases |s|
  {
    if s != [] && IsSpace(s[0]) then TrimStart(s[1..]) else s
  }

  /** `s` without its trailing whitespace. */
  function TrimEnd(s: string): (r: string)
    ensures |r| <= |s| && r == s[..|r|]
    ensures r == [] || !IsSpace(r[|r| - 1])
    decreases |s|
  {
    if s != [] && IsSpace(s[|s| - 1]) then TrimEnd(s[..|s| - 1]) else s
  }

  /** `str.strip()`, which a character field applies to its input before any check. */
  function Strip(s: string): (r: string)
    ensures Trimmed(r)
  {
    TrimEnd(TrimStart(s))
  }

  /** Leading whitespace does not change what `TrimStart` keeps. */
  lemma {:induction false} TrimStartPad(p: string, t: string)
    requires AllSpace(p)
    ensures TrimStart(p + t) == TrimStart(t)
    decreases |p|
  {
    if p == [] {
      assert p + t == t;
    } else {
      assert (p + t)[0] == p[0];
      assert (p + t)[1..] == p[1..] + t;
      TrimStartPad(p[1..], t);
    }
  }

  /** Trailing whitespace does not change what `TrimEnd` keeps. */
  lemma {:induction false} TrimEndPad(t: string, q: string)
    requires AllSpace(q)
    ensures TrimEnd(t + q) == TrimEnd(t)
    decreases |q|
  {
    if q == [] {
      assert t + q == t;
    } else {
      assert (t + q)[|t + q| - 1] == q[|q| - 1];
      assert (t + q)[..|t + q| - 1] == t + q[..|q| - 1];
      TrimEndPad(t, q[..|q| - 1]);
    }
  }

  /** `Strip` removes exactly the whitespace around a text: a string with no
      whitespace at either end, padded with any whitespace, strips back to itself. */
  lemma StripPads(p: string, s: string, q: string)
    requires AllSpace(p) && AllSpace(q) && Trimmed(s)
    ensures Strip(p + s + q) == s
  {
    assert p + s + q == p + (s + q);
    TrimStartPad(p, s + q);
    if s == [] {
      assert s + q == [] + q;
      TrimStartPad(q, []);
    } else {
      assert (s + q)[0] == s[0];
      TrimEndPad(s, q);
    }
  }

  /** A password of five characters padded with spaces is refused as too short:
      the length is checked after stripping. */
  lemma PaddedPasswordTooShort()
    ensures Strip("  12345  ") == "12345" && |Strip("  12345  ")| < MinPasswordLength
  {
    assert AllSpace("  ");
    assert "  " + "12345" + "  " == "  12345  ";
    StripPads("  ", "12345", "  ");
  }

  /** The registration form; the first and last names may be left out. */
  datatype Registration = Registration(
    email: string,
    username: string,
    password: string,
    firstName: Option<string>,
    lastName: Option<string>)

  datatype RegisterError = BlankField(field: string) | PasswordTooShort | InsertFailed(cause: StoreError)

  /** `validated_data.get(key, "")`. */
  function OrEmpty(o: Option<string>): string
  {
    match o
    case Some(s) => s
    case None => ""
  }

  /** Register a user: strip every field, refuse a blank e-mail, username or
      password and a password that is still too short, build the user with
      empty names where none were given, set the password and store the user. */
  method Register(db: Db, data: Registration) returns (r: Result<Inserted, RegisterError>)
    ensures Strip(data.email) == "" ==> r == Err(BlankField("email"))
    ensures Strip(data.email) != "" && Strip(data.username) == "" ==> r == Err(BlankField("username"))
    ensures Strip(data.email) != "" && Strip(data.username) != "" && Strip(data.password) == "" ==>
      r == Err(BlankField("password"))
    ensures Strip(data.email) != "" && Strip(data.username) != "" && 0 < |Strip(data.password)| < MinPasswordLength ==>
      r == Err(PasswordTooShort)
    ensures r.Ok? <==>
      && Strip(data.email) != "" && Strip(data.username) != "" && |Strip(data.password)| >= MinPasswordLength
      && !UsernameTaken(db, Strip(data.username)) && !EmailTaken(db, Strip(data.email))
    ensures Strip(data.email) != "" && Strip(data.username) != "" && |Strip(data.password)| >= MinPasswordLength ==>
      && (UsernameTaken(db, Strip(data.username)) ==> r == Err(InsertFailed(DuplicateUsername)))
      && (!UsernameTaken(db, Strip(data.username)) && EmailTaken(db, Strip(data.email)) ==>
            r == Err(InsertFailed(DuplicateEmail)))
    ensures r.Ok? ==> r.value.db.users == db.users[r.value.id := UserRow(
      Strip(data.username), Strip(data.email), Strip(OrEmpty(data.firstName)), Strip(OrEmpty(data.lastName)),
      "", None, Hashed(Strip(data.password)), false)]
    ensures r.Ok? ==> r.value.db.events == db.events && r.value.db.orders == db.orders && r.value.db.tickets == db.tickets
    ensures r.Ok? && Consistent(db) ==> r.value.id !in db.users && Consistent(r.value.db)
  {
    var email, username, password := Strip(data.email), Strip(data.username), Strip(data.password);
    if email == "" {
      return Err(BlankField("email"));
    } else if username == "" {
      return Err(BlankField("username"));
    } else if password == "" {
      return Err(BlankField("password"));
    } else if |password| < MinPasswordLength {
      return Err(PasswordTooShort);
    }
    var user := UserRow(username, email, Strip(OrEmpty(data.firstName)), Strip(OrEmpty(data.lastName)),
                        "", None, Blank, false);
    user := user.(password := Hashed(password));
    var saved := InsertUser(db, user);
    match saved
    case Ok(ins) => r := Ok(ins);
    case Err(cause) => r := Err(InsertFailed(cause));
  }

  /* ---------------------------------------------------------------------- */
  /* Event update                                                            */
  /* ---------------------------------------------------------------------- */

  /** The writable fields of an event. */
  datatype Field = Name | Description | Date | Location | AvailableTickets | TotalTickets

  /** One entry of the validated request: a field and the value asked for it. */
  datatype Assignment =
    | SetName(name: string)
    | SetDescription(description: Option<string>)
    | SetDate(date: DateTime)
    | SetLocation(location: string)
    | SetAvailable(available: int)
    | SetTotal(total: int)

  function FieldOf(a: Assignment): Field
  {
    match a
    case SetName(_) => Name
    case SetDescription(_) => Description
    case SetDate(_) => Date
    case SetLocation(_) => Location
    case SetAvailable(_) => AvailableTickets
    case SetTotal(_) => TotalTickets
  }

  /** `getattr`: the current value of field `f`, as an assignment of that value. */
  function Get(e: EventRow, f: Field): (a: Assignment)
    ensures FieldOf(a) == f
  {
    match f
    case Name => SetName(e.name)
    case Description => SetDescription(e.description)
    case Date => SetDate(e.date)
    case Location => SetLocation(e.location)
    case AvailableTickets => SetAvailable(e.availableTickets)
    case TotalTickets => SetTotal(e.totalTickets)
  }

  /** `setattr`: the assigned field reads back as assigned, and no other field changes. */
  function Apply(e: EventRow, a: Assignment): (r: EventRow)
    ensures Get(r, FieldOf(a)) == a
    ensures forall f :: f != FieldOf(a) ==> Get(r, f) == Get(e, f)
  {
    match a
    case SetName(v) => e.(name := v)
    case SetDescription(v) => e.(description := v)
    case SetDate(v) => e.(date := v)
    case SetLocation(v) => e.(location := v)
    case SetAvailable(v) => e.(availableTickets := v)
    case SetTotal(v) => e.(totalTickets := v)
  }

  /** Assigning a field the value it already has changes nothing. */
  lemma ApplyUnchanged(e: EventRow, a: Assignment)
    requires Get(e, FieldOf(a)) == a
    ensures Apply(e, a) == e
  {
  }

  /** A validated request is a dictionary (each field at most once) whose counts
      passed the range check of their positive-integer columns. */
  predicate ValidRequest(req: seq<Assignment>)
  {
    && (forall i, j :: 0 <= i < j < |req| ==> FieldOf(req[i]) != FieldOf(req[j]))
    && (forall i :: 0 <= i < |req| ==> CountsInRange(req[i]))
  }

  predicate CountsInRange(a: Assignment)
  {
    match a
    case SetAvailable(n) => InColumnRange(n)
    case SetTotal(n) => InColumnRange(n)
    case _ => true
  }

  /** The value the request gives field `f` (its last entry for `f`), if any. */
  function Lookup(req: seq<Assignment>, f: Field): (r: Option<Assignment>)
    ensures r.Some? ==> FieldOf(r.value) == f && r.value in req
    ensures r.None? <==> forall i :: 0 <= i < |req| ==> FieldOf(req[i]) != f
    decreases |req|
  {
    if req == [] then None
    else if FieldOf(req[|req| - 1]) == f then Some(req[|req| - 1])
    else Lookup(req[..|req| - 1], f)
  }

  predicate Requested(req: seq<Assignment>, f: Field)
  {
    Lookup(req, f).Some?
  }

  /** In a validated request, the entry for a field is the one the request holds. */
  lemma LookupFindsEntry(req: seq<Assignment>, i: nat)
    requires ValidRequest(req) && i < |req|
    ensures Lookup(req, FieldOf(req[i])) == Some(req[i])
  {
  }

  /** The `setattr` loop: every entry of the request applied in order. */
  function Assigned(e: EventRow, req: seq<Assignment>): EventRow
    decreases |req|
  {
    if req == [] then e else Apply(Assigned(e, req[..|req| - 1]), req[|req| - 1])
  }

  /** After the loop a field holds the request's value for it, or its old value. */
  lemma {:induction false} AssignedGet(e: EventRow, req: seq<Assignment>, f: Field)
    ensures Get(Assigned(e, req), f) == match Lookup(req, f) case Some(a) => a case None => Get(e, f)
    decreases |req|
  {
    if req != [] {
      AssignedGet(e, req[..|req| - 1], f);
    }
  }

  /** The change in capacity the request asks for: the new total minus the old
      one, or zero when the total is not in the request. */
  function Delta(e: EventRow, req: seq<Assignment>): int
  {
    match Lookup(req, TotalTickets)
    case Some(SetTotal(newTotal)) => newTotal - e.totalTickets
    case _ => 0
  }

  /** The event after its available count was moved by the change in capacity. */
  function Shifted(e: EventRow, req: seq<Assignment>): EventRow
  {
    e.(availableTickets := e.availableTickets + Delta(e, req))
  }

  /** A date in the request whose calendar day is before `today`. */
  predicate PastDate(req: seq<Assignment>, today: int)
  {
    match Lookup(req, Date)
    case Some(SetDate(d)) => d.day < today
    case _ => false
  }

  function Abs(x: int): int
  {
    if x < 0 then -x else x
  }

  datatype UpdateError = TotalBelowSold | DateInPast | SaveFailed(cause: StoreError)

  /** The checks and changes of the event update, as written: the guard on the
      capacity compares an absolute value with zero, so the update is refused
      exactly when it asks for a date before today (an event dated today passes). */
  function UpdateEvent(e: EventRow, req: seq<Assignment>, today: int): (r: Result<EventRow, UpdateError>)
    ensures r.Err? <==> PastDate(req, today)
    ensures r.Err? ==> r.error == DateInPast
  {
    if Requested(req, TotalTickets) && Abs(Delta(e, req)) < 0 then Err(TotalBelowSold)
    else if PastDate(req, today) then Err(DateInPast)
    else Ok(Assigned(Shifted(e, req), req))
  }

  /** After an accepted update every field in the request holds the requested
      value; a requested available count wins over the shifted one. */
  lemma UpdateSetsRequested(e: EventRow, req: seq<Assignment>, today: int)
    requires ValidRequest(req)
    requires UpdateEvent(e, req, today).Ok?
    ensures forall i :: 0 <= i < |req| ==> Get(UpdateEvent(e, req, today).value, FieldOf(req[i])) == req[i]
  {
    forall i | 0 <= i < |req|
      ensures Get(UpdateEvent(e, req, today).value, FieldOf(req[i])) == req[i]
    {
      LookupFindsEntry(req, i);
      AssignedGet(Shifted(e, req), req, FieldOf(req[i]));
    }
  }

  /** Fields the request leaves out keep their values, except the available
      count, which moves by the change in capacity. */
  lemma UpdateKeepsUnrequested(e: EventRow, req: seq<Assignment>, today: int)
    requires UpdateEvent(e, req, today).Ok?
    ensures forall f :: !Requested(req, f) && f != AvailableTickets ==>
      Get(UpdateEvent(e, req, today).value, f) == Get(e, f)
    ensures !Requested(req, AvailableTickets) ==>
      UpdateEvent(e, req, today).value.availableTickets == e.availableTickets + Delta(e, req)
  {
    var r := UpdateEvent(e, req, today).value;
    forall f | !Requested(req, f)
      ensures Get(r, f) == Get(Shifted(e, req), f)
    {
      AssignedGet(Shifted(e, req), req, f);
    }
  }

  /** When the request does not set the available count, the number of tickets
      sold (capacity minus available) is the same after the update; a new
      total moves the available count by exactly the difference. */
  lemma UpdateKeepsSold(e: EventRow, req: seq<Assignment>, today: int)
    requires ValidRequest(req)
    requires !Requested(req, AvailableTickets)
    requires UpdateEvent(e, req, today).Ok?
    ensures Sold(UpdateEvent(e, req, today).value) == Sold(e)
  {
    var r := UpdateEvent(e, req, today).value;
    UpdateKeepsUnrequested(e, req, today);
    AssignedGet(Shifted(e, req), req, TotalTickets);
    match Lookup(req, TotalTickets)
    case Some(a) =>
      assert r.totalTickets == a.total;
    case None =>
      assert r.totalTickets == e.totalTickets;
  }

  /** As written, a capacity cut below the tickets already sold passes the
      serializer and drives the available count negative; the write-back then
      fails on the column constraint instead of on the serializer's message. */
  lemma CapacityCutPassesGuard()
    ensures var e := EventRow("Concert", None, DateTime(100, 0), "Hall", 2, 10);
      && Storable(e)
      && UpdateEvent(e, [SetTotal(5)], 50).Ok?
      && UpdateEvent(e, [SetTotal(5)], 50).value.availableTickets == -3
      && !Storable(UpdateEvent(e, [SetTotal(5)], 50).value)
  {
    var e := EventRow("Concert", None, DateTime(100, 0), "Hall", 2, 10);
    var req := [SetTotal(5)];
    assert Lookup(req, TotalTickets) == Some(SetTotal(5));
    assert Lookup(req, Date) == None;
    var s := Shifted(e, req);
    assert s.availableTickets == -3;
    assert req[..0] == [];
    assert Assigned(s, req) == Apply(s, SetTotal(5));
  }

  /** The evidently intended update: a new total below the tickets already sold
      is refused before anything else, then a date before today. */
  function UpdateEventGuarded(e: EventRow, req: seq<Assignment>, today: int): (r: Result<EventRow, UpdateError>)
    ensures r == Err(TotalBelowSold) <==>
      Requested(req, TotalTickets) && Lookup(req, TotalTickets).value.total < Sold(e)
    ensures r.Err? && r.error != TotalBelowSold ==> r.error == DateInPast && PastDate(req, today)
    ensures r.Ok? ==> !PastDate(req, today)
  {
    if Requested(req, TotalTickets) && e.availableTickets + Delta(e, req) < 0 then Err(TotalBelowSold)
    else if PastDate(req, today) then Err(DateInPast)
    else Ok(Assigned(Shifted(e, req), req))
  }

  /** An accepted guarded update of a storable event never drives a count below
      zero; when the event has not more available than its capacity, the result
      is storable again. */
  lemma GuardedUpdateStaysStorable(e: EventRow, req: seq<Assignment>, today: int)
    requires Storable(e) && ValidRequest(req)
    ensures UpdateEventGuarded(e, req, today).Ok? ==>
      var u := UpdateEventGuarded(e, req, today).value;
      u.availableTickets >= 0 && InColumnRange(u.totalTickets)
    ensures UpdateEventGuarded(e, req, today).Ok? && Sold(e) >= 0 ==>
      Storable(UpdateEventGuarded(e, req, today).value)
  {
    var r := UpdateEventGuarded(e, req, today);
    if r.Ok? {
      var s := Shifted(e, req);
      AssignedGet(s, req, AvailableTickets);
      AssignedGet(s, req, TotalTickets);
    }
  }

  /** Write the changed instance back, reporting a refused write as an update error. */
  function SaveUpdated(db: Db, id: nat, row: EventRow): Result<Db, UpdateError>
    requires id in db.events
  {
    match SaveEvent(db, id, row)
    case Ok(saved) => Ok(saved)
    case Err(cause) => Err(SaveFailed(cause))
  }

  /** `setattr` on the instance: one field takes the assigned value. */
  method SetAttr(instance: Event, a: Assignment)
    modifies instance
    ensures instance.Row() == Apply(old(instance.Row()), a)
  {
    match a
    case SetName(v) => instance.name := v;
    case SetDescription(v) => instance.description := v;
    case SetDate(v) => instance.date := v;
    case SetLocation(v) => instance.location := v;
    case SetAvailable(v) => instance.availableTickets := v;
    case SetTotal(v) => instance.totalTickets := v;
  }

  /** The event update on an instance: move the available count by the change
      in capacity, refuse a past date, copy every differing field onto the
      instance, then write it back. A refusal happens before the write, so the
      store is untouched, but the instance already carries the moved count. */
  method Update(instance: Event, req: seq<Assignment>, today: int, db: Db) returns (r: Result<Db, UpdateError>)
    requires ValidRequest(req)
    requires instance.id in db.events
    modifies instance
    ensures UpdateEvent(old(instance.Row()), req, today).Err? ==>
      && r == Err(UpdateEvent(old(instance.Row()), req, today).error)
      && instance.Row() == Shifted(old(instance.Row()), req)
    ensures UpdateEvent(old(instance.Row()), req, today).Ok? ==>
      && instance.Row() == UpdateEvent(old(instance.Row()), req, today).value
      && r == SaveUpdated(db, instance.id, instance.Row())
  {
    var updatedFields: seq<Field> := [];
    var total := Lookup(req, TotalTickets);
    if total.Some? {
      var oldTotal := instance.totalTickets;
      var newTotal := total.value.total;
      var difference := newTotal - oldTotal;
      if Abs(difference) < 0 {
        return Err(TotalBelowSold);
      }
      instance.availableTickets := instance.availableTickets + difference;
    }
    ghost var start := instance.Row();
    assert start == Shifted(old(instance.Row()), req);

    var date := Lookup(req, Date);
    if date.Some? && date.value.date.day < today {
      return Err(DateInPast);
    }

    var i := 0;
    while i < |req|
      invariant 0 <= i <= |req|
      invariant instance.Row() == Assigned(start, req[..i])
    {
      var a := req[i];
      assert req[..i + 1][..i] == req[..i];
      if Get(instance.Row(), FieldOf(a)) != a {
        updatedFields := updatedFields + [FieldOf(a)];
        SetAttr(instance, a);
      } else {
        ApplyUnchanged(instance.Row(), a);
      }
      i := i + 1;
    }
    assert req[..|req|] == req;

    r := SaveUpdated(db, instance.id, instance.Row());
  }

  /* ---------------------------------------------------------------------- */
  /* Ticket request check                                                    */
  /* ---------------------------------------------------------------------- */

  const MinQuantity: int := 1
  const MaxQuantity: int := 5

  /** A ticket request: the event, order and user it names, and how many tickets. */
  datatype TicketData = TicketData(event: nat, order: nat, user: nat, quantity: int)

  datatype TicketError = QuantityOutOfRange | NotEnoughTickets(eventName: string)

  /** The check of a ticket request against the event it names: the quantity
      window first, then the available count. The data comes back unchanged and
      nothing is reserved. */
  function ValidateTicket(data: TicketData, event: EventRow): (r: Result<TicketData, TicketError>)
    ensures r.Ok? <==> MinQuantity <= data.quantity <= MaxQuantity && data.quantity <= event.availableTickets
    ensures r.Ok? ==> r.value == data
    ensures r == Err(QuantityOutOfRange) <==> !(MinQuantity <= data.quantity <= MaxQuantity)
    ensures r.Err? && r.error != QuantityOutOfRange ==> r.error == NotEnoughTickets(event.name)
  {
    if data.quantity < MinQuantity || data.quantity > MaxQuantity then Err(QuantityOutOfRange)
    else if event.availableTickets < data.quantity then Err(NotEnoughTickets(event.name))
    else Ok(data)
  }

  /** The quantity window is inclusive: 0 and 6 are refused whatever is
      available, 1 and 5 pass when enough tickets are available, and asking for
      exactly what is available passes. */
  lemma QuantityWindow(data: TicketData, event: EventRow)
    ensures ValidateTicket(data.(quantity := 0), event) == Err(QuantityOutOfRange)
    ensures ValidateTicket(data.(quantity := 6), event) == Err(QuantityOutOfRange)
    ensures event.availableTickets >= 5 ==> ValidateTicket(data.(quantity := 1), event).Ok?
    ensures event.availableTickets >= 5 ==> ValidateTicket(data.(quantity := 5), event).Ok?
    ensures 1 <= event.availableTickets <= 5 ==>
      ValidateTicket(data.(quantity := event.availableTickets), event) == Ok(data.(quantity := event.availableTickets))
  {
  }

  /** Storing a checked ticket leaves every event, and so its available count, as it was. */
  lemma CheckedTicketReservesNothing(db: Db, data: TicketData)
    requires data.event in db.events
    requires ValidateTicket(data, db.events[data.event]).Ok?
    requires InsertTicket(db, TicketRow(data.event, data.order, data.user, data.quantity)).Ok?
    ensures InsertTicket(db, TicketRow(data.event, data.order, data.user, data.quantity)).value.db.events[data.event]
      == db.events[data.event]
  {
  }

  /* ---------------------------------------------------------------------- */
  /* Order creation                                                          */
  /* ---------------------------------------------------------------------- */

  /** The order part of the request: its owner and, optionally, a status choice. */
  datatype OrderData = OrderData(user: nat, status: Option<Status>)

  /** One entry of the order's ticket list. */
  datatype NestedTicket = NestedTicket(event: nat, user: nat, quantity: int)

  /** The status code a new order is stored with: the chosen one, else Pending. */
  function StatusCode(data: OrderData): (code: int)
    ensures data.status.None? ==> StatusDisplay(code) == "Pending"
    ensures StatusOf(code) == Some(if data.status.Some? then data.status.value else Pending)
  {
    match data.status
    case Some(s) => s.Code()
    case None => DefaultStatus.Code()
  }

  function TicketFor(order: nat, t: NestedTicket): TicketRow
  {
    TicketRow(t.event, order, t.user, t.quantity)
  }

  /** The tickets made for the entries of `ts`, in order, under keys `base`, `base + 1`, ... */
  function Attached(base: nat, order: nat, ts: seq<NestedTicket>): map<nat, TicketRow>
    decreases |ts|
  {
    if ts == [] then map[]
    else Attached(base, order, ts[..|ts| - 1])[base + |ts| - 1 := TicketFor(order, ts[|ts| - 1])]
  }

  /** Exactly one ticket per entry: the keys are `base` up to `base + |ts|`, and
      the ticket under `base + i` is the i-th entry's, on `order`. */
  lemma {:induction false} AttachedAt(base: nat, order: nat, ts: seq<NestedTicket>)
    ensures forall k :: k in Attached(base, order, ts) <==> base <= k < base + |ts|
    ensures forall i :: 0 <= i < |ts| ==> Attached(base, order, ts)[base + i] == TicketFor(order, ts[i])
    decreases |ts|
  {
    if ts != [] {
      var prefix := ts[..|ts| - 1];
      AttachedAt(base, order, prefix);
      forall i | 0 <= i < |ts| - 1 ensures prefix[i] == ts[i] { }
    }
  }

  /** Storing the next entry's ticket extends the attached tickets by one. */
  lemma AttachedStep(existing: map<nat, TicketRow>, base: nat, order: nat, ts: seq<NestedTicket>, i: nat)
    requires i < |ts|
    ensures (existing + Attached(base, order, ts[..i]))[base + i := TicketFor(order, ts[i])]
         == existing + Attached(base, order, ts[..i + 1])
  {
    assert ts[..i + 1][..i] == ts[..i];
  }

  /** The store accepts a ticket for this entry: its quantity is within its
      column's range and its event and user exist. */
  predicate Insertable(db: Db, t: NestedTicket)
  {
    InColumnRange(t.quantity) && t.event in db.events && t.user in db.users
  }

  /** How many entries, from the front, the store accepts before the first it refuses. */
  function AcceptedPrefix(db: Db, ts: seq<NestedTicket>): (k: nat)
    ensures k <= |ts|
    ensures forall i :: 0 <= i < k ==> Insertable(db, ts[i])
    ensures k < |ts| ==> !Insertable(db, ts[k])
    decreases |ts|
  {
    if ts == [] || !Insertable(db, ts[0]) then 0 else 1 + AcceptedPrefix(db, ts[1..])
  }

  /** Entries the store accepts depend only on the events and users it holds. */
  lemma AcceptedPrefixSameRefs(db1: Db, db2: Db, ts: seq<NestedTicket>)
    requires db1.events == db2.events && db1.users == db2.users
    ensures AcceptedPrefix(db1, ts) == AcceptedPrefix(db2, ts)
  {
  }

  /** The loop of the order creation: one ticket on `order` per entry, in order,
      stopping at the first entry the store refuses. */
  method AddTickets(db: Db, order: nat, tickets: seq<NestedTicket>) returns (db': Db, refused: Option<StoreError>)
    requires order in db.orders
    ensures var k := AcceptedPrefix(db, tickets);
      && db' == db.(tickets := db.tickets + Attached(db.nextTicket, order, tickets[..k]), nextTicket := db.nextTicket + k)
      && (refused.None? <==> k == |tickets|)
      && (refused.Some? ==> refused.value == (if InColumnRange(tickets[k].quantity) then MissingReference else OutOfRange))
    ensures Consistent(db) ==> Consistent(db')
  {
    db' := db;
    assert Attached(db.nextTicket, order, tickets[..0]) == map[];
    assert db.tickets + map[] == db.tickets;
    var i := 0;
    while i < |tickets|
      invariant 0 <= i <= |tickets|
      invariant i <= AcceptedPrefix(db, tickets)
      invariant db' == db.(tickets := db.tickets + Attached(db.nextTicket, order, tickets[..i]), nextTicket := db.nextTicket + i)
      invariant Consistent(db) ==> Consistent(db')
    {
      var t := InsertTicket(db', TicketFor(order, tickets[i]));
      if t.Err? {
        assert !Insertable(db, tickets[i]);
        assert AcceptedPrefix(db, tickets) == i;
        return db', Some(t.error);
      }
      AttachedStep(db.tickets, db.nextTicket, order, tickets, i);
      db' := t.value.db;
      i := i + 1;
    }
    assert tickets[..i] == tickets;
    assert AcceptedPrefix(db, tickets) == i;
    refused := None;
  }

  /** Create the order, then one ticket per entry of the list, each on the new
      order. The writes are not in one transaction: when the store refuses an
      entry, the order and the tickets made before it stay. */
  method CreateOrder(db: Db, data: OrderData, tickets: seq<NestedTicket>, now: DateTime)
    returns (db': Db, r: Result<nat, StoreError>)
    ensures data.user !in db.users ==> r == Err(MissingReference) && db' == db
    ensures data.user in db.users ==>
      var order, k := db.nextOrder, AcceptedPrefix(db, tickets);
      && db'.orders == db.orders[order := OrderRow(data.user, StatusCode(data), now)]
      && db'.tickets == db.tickets + Attached(db.nextTicket, order, tickets[..k])
      && db'.users == db.users && db'.events == db.events
      && (r.Ok? <==> k == |tickets|)
      && (r.Ok? ==> r.value == order)
      && (r.Err? ==> r.error == (if InColumnRange(tickets[k].quantity) then MissingReference else OutOfRange))
    ensures Consistent(db) ==> Consistent(db')
  {
    var created := InsertOrder(db, data.user, StatusCode(data), now);
    if created.Err? {
      return db, Err(created.error);
    }
    var order := created.value.id;
    var refused;
    db', refused := AddTickets(created.value.db, order, tickets);
    AcceptedPrefixSameRefs(db, created.value.db, tickets);
    r := if refused.Some? then Err(refused.value) else Ok(order);
  }
}
