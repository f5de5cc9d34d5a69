# Ticket application: records, serializers and access rule in Dafny

This project models the core of a Django REST ticket application: the record
shapes of users, events, tickets and orders with their cascading deletes, the
order status choices and string renderings, the serializers that register
users, update events, check ticket requests and create orders with their
tickets, and the `IsAdminOrReadOnly` permission.

Nothing in the code reserves or releases capacity, and orders have no state
transitions. The expiry command calls a method that no model defines.

Files (one module each):

- `results.dfy` (`Results`): `Option` and `Result`, used for every error path.
- `models.dfy` (`Models`): the rows of the four tables. The `Status` choices
  with their codes and labels. `get_status_display` and the `__str__`
  renderings (`UserStr`, `EventStr`, `TicketStr`, `OrderStr`), with decimal
  rendering of ids. The in-memory `Event` instance class.
- `store.dfy` (`Store`): the database as a value `Db`, with one map per table
  and one key sequence per table. Inserts enforce the declared column rules:
  foreign keys, unique username and e-mail, and positive-integer columns kept
  within 0..2147483647. Deletes follow `on_delete=CASCADE`.
- `permissions.dfy` (`Permissions`): `HasPermission` and its properties.
- `serializers.dfy` (`Serializers`): `Strip` (the whitespace trimming of a
  character field), `Register`, the event update (specification
  functions `UpdateEvent`, `Assigned`, `Shifted` and the method `Update` on an
  `Event` instance), `ValidateTicket`, and `CreateOrder` with its ticket loop
  `AddTickets`.

Parameters stand in for the framework:

- "Today" (a day number) and "now" (a `DateTime`) are parameters.
- The hashed password is the symbolic `Hashed(raw)`.
- The database is the `Db` value passed in and returned.

The event update works on an `Event` object whose fields change one by one. It
then writes that object back with `SaveEvent`. When the update is refused, the
object already carries the shifted available count, and the store is left
untouched.

Behaviour worth noting:

- The code never decrements `available_tickets` when a ticket is created. It
  never releases capacity when an order or ticket is deleted (`InsertTicket`,
  `DeleteOrder`, `CheckedTicketReservesNothing`).
- Orders have exactly four statuses: Pending, Confirmed, Failed and Expired.
- The capacity guard in the event update never fires (see Findings).

## Model

| member | source | states |
|---|---|---|
| `Models.Status.Code` | tickets/models.py:48-52 | every status is stored as a code between 1 and 4 |
| `Models.Status.Label` | tickets/models.py:48-52 | a status's label is the one the choices pair with its code: 1 "Pending", 2 "Confirmed", 3 "Failed", 4 "Expired" |
| `Models.StatusOf` | tickets/models.py:48-52 | exactly the codes 1 to 4 name a status, and the status found carries that code |
| `Models.StatusCodeRoundTrip` | tickets/models.py:48-52 | every status is recovered from its code, so Pending=1, Confirmed=2, Failed=3 and Expired=4 are pairwise distinct and there is no fifth state |
| `Serializers.StatusCode` | tickets/models.py:55 | a new order gets the chosen status, or Pending when none is given, and then displays as "Pending" |
| `Models.NatToDecimal` | tickets/models.py:58-59 | an order id renders as a non-empty string of digits without a leading zero |
| `Models.DecimalRoundTrip` | tickets/models.py:58-59 | the rendered id reads back as the id |
| `Models.StatusDisplay` | tickets/models.py:55-59 | `get_status_display()` gives the label the choices pair with a known code; any other code shows as its own decimal text: digits without a leading zero that read back as the code, after a minus sign when negative |
| `Models.OrderStr` | tickets/models.py:58-59 | `Order.__str__` is "Order ", then digits that read back as the id, " - ", the owner's e-mail, " - " and the status display, with nothing else between or after |
| `Models.Event.Load` | tickets/models.py:27-32 | an event instance holds exactly the fields of the row it was loaded from |
| `Store.InsertUser` | tickets/models.py:6-8 | a user is stored iff neither the username nor the e-mail is taken; the store stays consistent |
| `Store.InsertOrder` | tickets/models.py:54-56 | an order is stored iff its user exists; `created_at` is the creation time; nothing else changes |
| `Store.InsertTicket` | tickets/models.py:38-41 | a ticket is stored iff its event, order and user exist and its quantity is within 0..2147483647; no event changes |
| `Store.SaveEvent` | tickets/models.py:32 | writing an event back is refused iff its available count or capacity is outside 0..2147483647; only that row changes |
| `Store.DeleteOrder` | tickets/models.py:40 | deleting an order removes exactly the tickets of that order; users and events, including available counts, are unchanged; consistency is kept |
| `Store.DeleteEvent` | tickets/models.py:39 | deleting an event removes exactly its tickets; users and orders are unchanged; consistency is kept |
| `Store.DeleteUser` | tickets/models.py:39-54 | deleting a user removes exactly their orders, their tickets and the tickets of their orders; events are unchanged; consistency is kept |
| `Permissions.HasPermission` | tickets/permissions.py:7-12 | safe methods are always allowed; any other method is allowed iff the requester is a superuser |
| `Permissions.ReadsAlwaysAllowed` | tickets/permissions.py:9-10 | GET, HEAD and OPTIONS are allowed for every requester, superuser or not |
| `Permissions.WritesNeedSuperuser` | tickets/permissions.py:12 | a missing or anonymous user is refused every non-safe method; a stored user is allowed iff a superuser |
| `Permissions.ViewIrrelevant` | tickets/permissions.py:7-12 | the decision does not depend on the view |
| `Serializers.Strip` | tickets/serializers.py:8-12 | a character field's value has no whitespace left at either end |
| `Serializers.StripPads` | tickets/serializers.py:8-12 | stripping removes exactly the whitespace around a text: any text without edge whitespace, padded with whitespace, strips back to itself |
| `Serializers.PaddedPasswordTooShort` | tickets/serializers.py:8 | "  12345  " strips to "12345", which is under the 6-character minimum |
| `Serializers.Register` | tickets/serializers.py:7-23 | after stripping every field, a blank e-mail, username or password is refused, then a password under 6 characters; otherwise a taken username is refused, then a taken e-mail, and the user is stored iff both are free, as the one new user beside all earlier ones, with the stripped names or empty ones, the stripped password set, and not a superuser |
| `Serializers.Apply` | tickets/serializers.py:48 | `setattr` makes the field read back as assigned and changes no other field |
| `Serializers.ApplyUnchanged` | tickets/serializers.py:46-48 | skipping a field whose value already equals the requested one loses nothing |
| `Serializers.SetAttr` | tickets/serializers.py:48 | the instance becomes the row with that one field assigned |
| `Serializers.AssignedGet` | tickets/serializers.py:45-48 | after the loop each field holds the request's value for it, or its previous value when absent |
| `Serializers.UpdateEvent` | tickets/serializers.py:30-49 | the update is refused iff the requested date's day is before today (an event dated today passes), always with the date error; the "less than already sold" refusal never happens |
| `Serializers.UpdateSetsRequested` | tickets/serializers.py:45-48 | after an accepted update every requested field equals the requested value, so a requested available count overrides the shifted one |
| `Serializers.UpdateKeepsUnrequested` | tickets/serializers.py:33-48 | fields absent from the request keep their values, except the available count, which moves by new total minus old total |
| `Serializers.UpdateKeepsSold` | tickets/serializers.py:33-39 | when the available count is not requested, tickets sold (capacity minus available) is the same after the update |
| `Serializers.CapacityCutPassesGuard` | tickets/serializers.py:37-39 | as written, a storable event with 8 of 10 sold and a new total of 5 passes the update with available -3, which the store then refuses to write |
| `Serializers.UpdateEventGuarded` | tickets/serializers.py:37-38 | with the intended guard, a new total is refused iff it is below the tickets sold; any other refusal is a date before today |
| `Serializers.GuardedUpdateStaysStorable` | tickets/serializers.py:37-38 | an accepted guarded update of a storable event leaves no count below zero, and is storable when the event had not more available than its capacity |
| `Serializers.Update` | tickets/serializers.py:30-52 | the instance ends as `UpdateEvent` says and the result is the write-back; on refusal nothing is written, but the instance already carries the shifted count |
| `Serializers.ValidateTicket` | tickets/serializers.py:59-71 | accepted iff 1 <= quantity <= 5 and quantity <= available; the window is checked first; on success the data comes back unchanged |
| `Serializers.QuantityWindow` | tickets/serializers.py:64-71 | 0 and 6 are refused, 1 and 5 pass, and a quantity equal to the available count passes |
| `Serializers.CheckedTicketReservesNothing` | tickets/serializers.py:67-71 | storing a checked ticket leaves the event's available count as it was |
| `Serializers.AttachedAt` | tickets/serializers.py:88-89 | the new tickets have exactly the keys of one ticket per entry, the i-th holding the i-th entry on the new order |
| `Serializers.AcceptedPrefix` | tickets/serializers.py:88-89 | counts the entries the store takes before the first it refuses |
| `Serializers.AddTickets` | tickets/serializers.py:88-89 | one ticket per entry on the order, in input order, stopping at the first refused entry; consistency is kept |
| `Serializers.CreateOrder` | tickets/serializers.py:83-91 | the order is created with its status (default Pending) and creation time, then one ticket per entry referencing it; an entry the store refuses ends the call with the earlier writes kept |

## Findings

| source | as written | input that shows it | evidently intended | confidence | as-written member | corrected member |
|---|---|---|---|---|---|---|
| tickets/serializers.py:37-38 | the guard `abs(ticket_difference) < 0` can never hold, so a new total below the tickets already sold passes validation | an event with total 10 and available 2 (8 sold), updated with total_tickets 5: available becomes -3, and the write-back then fails on the positive-integer column rather than on the validation message | refuse with "Total tickets cannot be less than already sold tickets." when the new total is below total minus available | high; not executed | `Serializers.CapacityCutPassesGuard` | `Serializers.GuardedUpdateStaysStorable` |

`Serializers.Update` keeps the code as written, because it models the source.
The corrected guard is `UpdateEventGuarded`, with its property proved next to it.

## Left out

- The expiry command (tickets/management/commands/delete_expired_reservations.py:9) calls `Order.expire_all_orders()`. No model defines that method, so there is no expiry logic to model.
- Views and URL routing (tickets/views.py, tickets/urls.py) are framework wiring. They name `UserSerializer` and `PaymentViewSet`, which are not defined in tickets/serializers.py or tickets/views.py.
- Prices, currency, `total_price` and `get_total_price` are not modelled. They belong to migration 0004, and the serializer only reads a stored field.
- Password hashing is not modelled; `Hashed(raw)` stands for the stored hash of `raw`.
- The clock is not modelled, and neither is time-zone conversion of dates. "Today" and "now" are parameters.
- JWT authentication, concurrency, locking and transactions are not modelled. Each write is one step on the `Db` value.
- `Serializers.Register`: reports only the first failing check, in this order: blank e-mail, blank username, blank password, password under 6 characters, username taken, e-mail taken. The framework reports every failing field.
- `Serializers.Register`: does not model the framework's other derived field checks, such as maximum lengths and e-mail syntax.
- `Store.InColumnRange`: the upper bound 2147483647 is Django's range for a positive-integer column on back ends with 32-bit integer columns; on SQLite neither the serializer nor the column enforces it. The model applies it everywhere.
- `Serializers.Update`: a total increase on an event whose available count already exceeds its capacity can push the available count past 2147483647. The serializer has no message for this, and the write-back then fails with `OutOfRange`, as `Store.SaveEvent` states.
- `Serializers.ValidateTicket` is applied as written. The framework's field validators run before it, from the quantity validators of migration 0002, and would already refuse 0 and 6 with their own message. That earlier pass is not modelled.
- `Serializers.CreateOrder`: the ticket list and the owner are explicit inputs. In the code, `tickets` is a read-only field (tickets/serializers.py:74), so `validated_data.pop("tickets")` would fail. The code also never supplies `user`, which is not among the serializer's fields. The model covers the evidently intended loop.
- `Serializers.CreateOrder`: the nested ticket data are not checked by the serializer. Only the store's column rules apply: existing event and user, and a quantity within 0..2147483647. The 1..5 validators of migration 0002 are not enforced on this path.
- `Models.Event.Load`: `available_tickets` is a non-null integer, as models.py:32 declares. Migration 0002 makes it nullable (lines 26-29). A null count, which would make the update and the ticket check fail with a type error, is not modelled.
- `status` is stored as an integer code. A code outside the four choices can only come from a direct database write; it displays as the number itself (`StatusDisplay`).
- User fields the application never reads are not modelled: staff flag, last login, groups and permissions.
- `UserStr`, `EventStr` and `TicketStr` render one field or a fixed format. They carry no contract of their own.
