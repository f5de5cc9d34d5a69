/**
  The database behind the models, as a value: one map per table from primary
  key to row, plus the next key of each table's sequence. Inserts enforce the
  column constraints the models declare (foreign keys, unique user names and
  e-mails, positive-integer columns within 0..2147483647); deletes follow the
  `on_delete=CASCADE` declarations.
*/
module Store {
  import opened Results
  import opened Models

  /** The integrity rule a write broke. */
  datatype StoreError =
    | MissingReference   // a foreign key naming no row
    | DuplicateUsername  // `username` is unique
    | DuplicateEmail     // `email` is unique
    | OutOfRange         // a positive-integer column given a value outside its range

  datatype Db = Db(
    users: map<nat, UserRow>,
    events: map<nat, EventRow>,
    orders: map<nat, OrderRow>,
    tickets: map<nat, TicketRow>,
    nextUser: nat,
    nextEvent: nat,
    nextOrder: nat,
    nextTicket: nat)

  /** A new row and the key it was stored under. */
  datatype Inserted = Inserted(db: Db, id: nat)

  predicate RefsExist(db: Db, t: TicketRow)
  {
    t.event in db.events && t.order in db.orders && t.user in db.users
  }

  /** Every key is below its sequence, and every foreign key names an existing row. */
  predicate Consistent(db: Db)
  {
    && (forall k :: k in db.users ==> k < db.nextUser)
    && (forall k :: k in db.events ==> k < db.nextEvent)
    && (forall k :: k in db.orders ==> k < db.nextOrder)
    && (forall k :: k in db.tickets ==> k < db.nextTicket)
    && (forall k :: k in db.orders ==> db.orders[k].user in db.users)
    && (forall k :: k in db.tickets ==> RefsExist(db, db.tickets[k]))
  }

  /** The largest value a positive-integer column holds (a 32-bit signed column). */
  const MaxPositiveInt: int := 2147483647

  /** The range of a positive-integer column: not below zero, and within 32 bits. */
  predicate InColumnRange(n: int)
  {
    0 <= n <= MaxPositiveInt
  }

  /** The columns declared as positive integers hold values within their range. */
  predicate Storable(e: EventRow)
  {
    InColumnRange(e.availableTickets) && InColumnRange(e.totalTickets)
  }

  predicate UsernameTaken(db: Db, username: string)
  {
    exists k :: k in db.users && db.users[k].username == username
  }

  predicate EmailTaken(db: Db, email: string)
  {
    exists k :: k in db.users && db.users[k].email == email
  }

  /** Insert a user under the next key; fails on a taken username or e-mail. */
  function InsertUser(db: Db, u: UserRow): (r: Result<Inserted, StoreError>)
    ensures r.Ok? <==> !UsernameTaken(db, u.username) && !EmailTaken(db, u.email)
    ensures r.Err? ==> r.error == (if UsernameTaken(db, u.username) then DuplicateUsername else DuplicateEmail)
    ensures r.Ok? ==> r.value.db.users == db.users[r.value.id := u]
    ensures r.Ok? ==> r.value.db.events == db.events && r.value.db.orders == db.orders && r.value.db.tickets == db.tickets
    ensures r.Ok? && Consistent(db) ==> r.value.id !in db.users && Consistent(r.value.db)
  {
    if UsernameTaken(db, u.username) then Err(DuplicateUsername)
    else if EmailTaken(db, u.email) then Err(DuplicateEmail)
    else Ok(Inserted(db.(users := db.users[db.nextUser := u], nextUser := db.nextUser + 1), db.nextUser))
  }

  /** Insert an order for `user`; `created_at` is set to `now` here and nowhere else. */
  function InsertOrder(db: Db, user: nat, status: int, now: DateTime): (r: Result<Inserted, StoreError>)
    ensures r.Ok? <==> user in db.users
    ensures r.Err? ==> r.error == MissingReference
    ensures r.Ok? ==> r.value.db.orders == db.orders[r.value.id := OrderRow(user, status, now)]
    ensures r.Ok? ==> r.value.db.users == db.users && r.value.db.events == db.events && r.value.db.tickets == db.tickets
    ensures r.Ok? ==> r.value.db.nextTicket == db.nextTicket
    ensures r.Ok? && Consistent(db) ==> r.value.id !in db.orders && Consistent(r.value.db)
  {
    if user !in db.users then Err(MissingReference)
    else Ok(Inserted(db.(orders := db.orders[db.nextOrder := OrderRow(user, status, now)], nextOrder := db.nextOrder + 1), db.nextOrder))
  }

  /** Insert a ticket under the next key. Only the column constraints apply: the
      quantity must be within its column's range, and the three references must exist. */
  function InsertTicket(db: Db, t: TicketRow): (r: Result<Inserted, StoreError>)
    ensures r.Ok? <==> InColumnRange(t.quantity) && RefsExist(db, t)
    ensures r.Err? ==> r.error == (if InColumnRange(t.quantity) then MissingReference else OutOfRange)
    ensures r.Ok? ==> r.value.id == db.nextTicket && r.value.db.tickets == db.tickets[r.value.id := t]
    ensures r.Ok? ==> r.value.db.nextTicket == db.nextTicket + 1
    ensures r.Ok? ==> r.value.db.users == db.users && r.value.db.events == db.events && r.value.db.orders == db.orders
    ensures r.Ok? ==> r.value.db.nextOrder == db.nextOrder
    ensures r.Ok? && Consistent(db) ==> r.value.id !in db.tickets && Consistent(r.value.db)
  {
    if !InColumnRange(t.quantity) then Err(OutOfRange)
    else if !RefsExist(db, t) then Err(MissingReference)
    else Ok(Inserted(db.(tickets := db.tickets[db.nextTicket := t], nextTicket := db.nextTicket + 1), db.nextTicket))
  }

  /** Write an event instance back over its row; a count outside its column's range is refused. */
  function SaveEvent(db: Db, id: nat, row: EventRow): (r: Result<Db, StoreError>)
    requires id in db.events
    ensures r.Ok? <==> Storable(row)
    ensures r.Err? ==> r.error == OutOfRange
    ensures r.Ok? ==> r.value.events == db.events[id := row]
    ensures r.Ok? ==> r.value.users == db.users && r.value.orders == db.orders && r.value.tickets == db.tickets
    ensures r.Ok? && Consistent(db) ==> Consistent(r.value)
  {
    if !Storable(row) then Err(OutOfRange) else Ok(db.(events := db.events[id := row]))
  }

  /** Delete an order: exactly the tickets of that order go with it. No event's
      available count changes. */
  function DeleteOrder(db: Db, id: nat): (r: Db)
    ensures r.orders.Keys == db.orders.Keys - {id}
    ensures forall k :: k in r.orders ==> r.orders[k] == db.orders[k]
    ensures forall k :: k in r.tickets <==> k in db.tickets && db.tickets[k].order != id
    ensures forall k :: k in r.tickets ==> r.tickets[k] == db.tickets[k]
    ensures r.users == db.users && r.events == db.events
    ensures Consistent(db) ==> Consistent(r)
  {
    db.(orders := db.orders - {id},
        tickets := map k | k in db.tickets && db.tickets[k].order != id :: db.tickets[k])
  }

  /** Delete an event: exactly its tickets go with it. */
  function DeleteEvent(db: Db, id: nat): (r: Db)
    ensures r.events.Keys == db.events.Keys - {id}
    ensures forall k :: k in r.events ==> r.events[k] == db.events[k]
    ensures forall k :: k in r.tickets <==> k in db.tickets && db.tickets[k].event != id
    ensures forall k :: k in r.tickets ==> r.tickets[k] == db.tickets[k]
    ensures r.users == db.users && r.orders == db.orders
    ensures Consistent(db) ==> Consistent(r)
  {
    db.(events := db.events - {id},
        tickets := map k | k in db.tickets && db.tickets[k].event != id :: db.tickets[k])
  }

  /** The order a ticket belongs to is owned by user `id`. */
  predicate InOrderOf(db: Db, t: TicketRow, id: nat)
  {
    t.order in db.orders && db.orders[t.order].user == id
  }

  /** Delete a user: their orders, their tickets and the tickets of their orders
      go with them; nothing left refers to the user. */
  function DeleteUser(db: Db, id: nat): (r: Db)
    ensures r.users.Keys == db.users.Keys - {id}
    ensures forall k :: k in r.users ==> r.users[k] == db.users[k]
    ensures forall k :: k in r.orders <==> k in db.orders && db.orders[k].user != id
    ensures forall k :: k in r.orders ==> r.orders[k] == db.orders[k]
    ensures forall k :: k in r.tickets <==>
      k in db.tickets && db.tickets[k].user != id && !InOrderOf(db, db.tickets[k], id)
    ensures forall k :: k in r.tickets ==> r.tickets[k] == db.tickets[k]
    ensures r.events == db.events
    ensures Consistent(db) ==> Consistent(r)
  {
    db.(users := db.users - {id},
        orders := map k | k in db.orders && db.orders[k].user != id :: db.orders[k],
        tickets := map k | k in db.tickets && db.tickets[k].user != id && !InOrderOf(db, db.tickets[k], id)
                     :: db.tickets[k])
  }
}
