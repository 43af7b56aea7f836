# Courier dispatch: a verified model

This project models the dispatch part of the courier service in Dafny and proves
properties of it: the two tables and the transactions that read and write them, the
consumption of order events on top, and the token bucket of the rate limiter.

`dafny verify dfyconfig.toml` checks everything.

## How it is laid out

| file | contents |
|---|---|
| `Entities.dfy`, `Validators.dfy` | entities, errors, injected faults and clock readings; the string predicates |
| `Tables.dfy`, `Dispatch.dfy` | the tables `couriers` and `delivery` as row sequences, each SQL statement and each service operation as a function on them, and runs of operations |
| `AssignmentQuery.dfy` | the least-loaded query as join, filter, group, order, limit; its meaning |
| `Repository.dfy`, `Services.dfy` | the same tables in place: the statements as loops over the rows, and the services, which work on the tables inside a transaction and restore them on an error |
| `Outcomes.dfy`, `Refusals.dfy` | when each operation succeeds, the state it then leaves, and which error it returns otherwise |
| `StoreInvariant.dfy`, `BusyCouriers.dfy` | what every run keeps: keys, references, validators, row timing, "busy owns a row" |
| `Accounting.dfy`, `CleanupAlgebra.dfy`, `PartialUpdates.dfy` | loads, undo, the ledger of rows, cleanups, partial updates |
| `TrimmedPhones.dfy` | when phones are unique with the spaces around them cut off |
| `Exhaustion.dfy`, `RoundRobin.dfy` | whole runs of assignments |
| `Consumption.dfy`, `Worker.dfy`, `Handlers.dfy` | partitions, sessions, marks and restarts; all partitions interleaved with the rest of the system; the order service and the claim loop in place |
| `Interruptions.dfy` | which failures leave a message to be read again |
| `Redelivery.dfy` | what handling the same message again does to the tables |
| `Witnesses.dfy` | runs from the empty system in which the failing cases below occur |
| `RateLimiter.dfy` | the token bucket |

## Conventions

* A transaction runs on the tables in place and is undone on any error; values drawn from
  an id sequence are not given back. Transactions are atomic with respect to one another
  (the source runs them serializable).
* A `Fault` makes any one statement of a transaction, or its commit, fail for outside reasons,
  with or without a context error. "All or nothing" is therefore stated for every failure point.
* An assignment takes four readings of one clock: the request's, the transaction's NOW(),
  the base of the deadline, and the assignment time. Runs are arbitrary; where a property needs
  the clock not to go back, only the readings inside one assignment need to be ordered.
* The order service is an oracle: each message meets an arbitrary answer. The status inside
  the event is never used, as in the source.
* Status and transport are strings in the source; here they have one constructor per named
  constant and one for every other string.
* In the token bucket time and rate are exact reals, and the rate is not negative.

## What the proofs found

* The bound on busy time needs that nobody writes "busy" by POST or PUT: a cleanup bounds
  every courier's busy time, at every instant, if and only if every busy courier owns a delivery row
  (`BoundedIffBusyOwnRows`), and a courier posted as busy is not released by any cleanup (`PostedBusyIsStuck`).
* A courier can be freed in the middle of a delivery. Completing an order keeps its row, and a cleanup looks at all
  rows of a busy courier, so after a later assignment the courier stays busy through the cleanups up to the
  new deadline if and only if none of them comes after the deadline of an older row (`GrantSurvivesCleanupsIff`;
  `CleanupFreesServingCourier` is a run from the empty system).
* A cancelled order can come back. After its successful unassignment no later event, replay or restart
  gives it a row again if and only if no other partition was already holding the answer
  "created" for it (`NoResurrectionIff`). The order service's producer sets no message key
  (`.service-order/internal/gateway/kafka/sarama_producer.go:66-69`), so the events
  of one order can be spread over partitions; with one partition per order the condition always
  holds (`NoResurrection`). Two partitions reach the failing case from the empty system
  (`CancelledOrderComesBack`).
* Unassigning right after assigning works only if some available courier was idle (`UndoAtOnce`):
  otherwise the chosen courier has other active deliveries and the cancellation is refused. One courier
  who completes an order early and gets another one is enough (`UndoCanBeRefused`).
* Handling a message again after any operations that did not assign or unassign its order leaves both
  tables alone (but for `updated_at`), unless it is a completion whose courier is no longer available
  (`RedeliveryKeepsIff`): that one makes the courier available while it is busy with another order
  (`ReplayFreesBusyCourier`).
* A duplicate assignment is reported as "no available couriers" when there are none (`AssignRefusals`).
* Phones are unique as typed, not as trimmed (`SpacedPhoneIsAnotherKey`): the steps that break the
  uniqueness of trimmed phones are exactly the successful POSTs and PUTs of a phone that another row has
  but for spaces around it (`StepKeepsTrimmedIff`).

## Model

| member | source | states |
|---|---|---|
| RoundRobin.ServedInTurn | internal/service/delivery/delivery.go:99-180 | in any run of (assign a fresh order, complete it) from couriers without active deliveries, while no new deadline passes, the k-th assignment goes to id-rank k mod n, and after m rounds rank i holds exactly (m+n-1-i)/n active deliveries, so loads differ by at most one |
| RoundRobin.ShortRunsLast | internal/pkg/factory/delivery_deadline/factory.go:15-29 | a run that ends within five minutes of its first reading meets that condition on deadlines |
| RoundRobin.RanksExist | internal/repository/delivery/delivery.go:110 | every table with unique ids has its available couriers ranked by id, as the run theorem assumes |
| RoundRobin.CompletionRestores | internal/service/delivery/delivery.go:155-180 | completing a fresh assignment succeeds and gives every courier its old row back but for updated_at |
| Exhaustion.AssignmentsExhaust | internal/service/delivery/delivery.go:106-151 | from n available couriers a run of fresh assignments succeeds exactly n times, on pairwise distinct couriers that are exactly the available ones, and every later one is refused for lack of couriers |
| Exhaustion.ExhaustedIsStable | internal/service/delivery/delivery.go:107-110 | once the n couriers are used up the rest of the run leaves both tables alone |
| Exhaustion.TakenInOrder | internal/repository/delivery/delivery.go:103-112 | if no deadline passes meanwhile the couriers are taken in the order of (active load, id) at the start |
| AssignmentQuery.QueryMeaning | internal/repository/delivery/delivery.go:102-112 | left join, status filter, group, filtered count, order and limit yield the available courier least in (active load, id), couriers without rows counting 0, and nothing exactly when none is available |
| AssignmentQuery.JoinMeaning | internal/repository/delivery/delivery.go:104-109 | the filtered join holds only available couriers, each of them, with as many active rows as its load |
| AssignmentQuery.GroupsCount | internal/repository/delivery/delivery.go:109-110 | grouping one row at a time gives every joined courier one count, that of its active rows |
| Repository.Database.GetCourierForAssignment | internal/repository/delivery/delivery.go:102-133 | the loops over the rows return the available courier with the fewest rows of deadline >= now, by id among equals, and the no-courier error exactly when there is none |
| Repository.Database.GetCourierIDAndDeliveryCount | internal/repository/delivery/delivery.go:79-100 | the nested loop returns the order's courier and the number of that courier's rows of other orders with deadline >= now, or not found |
| Repository.Database.UpdateCouriersAvailableWhereDeadlineExpired | internal/repository/delivery/delivery.go:135-155 | in place, exactly the busy couriers with a delivery of deadline < now become available, every other row stays, and the count is theirs |
| Repository.Database.CreateDelivery | internal/repository/delivery/delivery.go:25-60 | appends one row under the unique order id and the reference to a courier, or changes no row |
| Repository.Database.Delete | internal/repository/delivery/delivery.go:62-77 | removes the order's rows and keeps the others in order, or reports not found |
| Repository.Database.Update | internal/repository/courier/courier.go:52-107 | patches the present fields of one row, refusing a missing row or another courier's phone |
| Repository.Database.Create | internal/repository/courier/courier.go:27-50 | appends one courier with the next id, or a conflict when the phone exists |
| Services.DeliveryService.DeliveryAssign | internal/service/delivery/delivery.go:99-153 | in place: the outcome and tables of the specified assignment, its deadline by transport included, the invariant kept, and both tables as before on any error at any step |
| Services.DeliveryService.DeliveryUnassign | internal/service/delivery/delivery.go:42-85 | the same for unassignment |
| Services.DeliveryService.FreeCourierByOrderID | internal/service/delivery/delivery.go:155-180 | the same for completion |
| Services.CourierService.UpdateCourier | internal/service/courier/courier.go:51-77 | in place: validation in the source's order, then the patched row |
| Services.CourierService.CreateCourier | internal/service/courier/courier.go:22-49 | in place: validation in the source's order, then the new row |
| Outcomes.AssignOutcome | internal/service/delivery/delivery.go:99-153 | succeeds exactly when the order id is valid, fits and has no row, some courier is available and no statement fails; then the least-loaded courier is busy, owns the new row and is in the answer; otherwise both tables are as before, whichever statement failed |
| Outcomes.AssignRefusals | internal/service/delivery/delivery.go:99-110 | which error a refused assignment returns, in this order: blank order id, no available courier, more than 255 characters, an order that has a row; so lack of couriers hides a duplicate order |
| Outcomes.UnassignOutcome | internal/service/delivery/delivery.go:42-85 | succeeds exactly when the order has a row, its courier has no other active delivery and no statement fails; then the row is gone and the courier available; otherwise both tables are as before |
| Outcomes.UnassignRefusals | internal/service/delivery/delivery.go:42-56 | blank order id, then not found exactly without a row, then "has active deliveries" exactly when other active ones exist |
| Outcomes.CompleteOutcome | internal/service/delivery/delivery.go:155-180 | succeeds exactly when the order has a row and no statement fails; the row stays and the courier is available, whatever its status was |
| Refusals.CreateRefusals | internal/service/courier/courier.go:22-49 | which error a refused creation returns: a missing field, the first refused field in the order name, phone, status, transport, a failing statement, a stored phone |
| Refusals.UpdateRefusals | internal/service/courier/courier.go:51-77 | the same for an update: no field, the first refused field, a failing statement, no such row, another courier's phone |
| Refusals.CompleteRefusals | internal/service/delivery/delivery.go:155-180 | a completion is refused exactly for a blank order id or an order without a row |
| StoreInvariant.RunKeepsValid | migrations/20251119153655_create_delivery_table.sql:4-18 | over every run, failing steps included: courier ids, raw phones and order ids unique, every row's courier exists, every courier satisfies the four validators |
| StoreInvariant.CreateOutcome | internal/service/courier/courier.go:22-49 | a courier is created exactly when its fields are present and valid and its phone is free; it gets an id no row had and the fields it was given |
| StoreInvariant.RemoveOne | internal/repository/delivery/delivery.go:62-77 | deleting by order id removes exactly one row when there is one, and none otherwise |
| TrimmedPhones.CreateKeepsTrimmedIff | internal/service/courier/courier.go:22-49 | while trimmed phones are distinct, creating a courier keeps them distinct exactly when it fails or no stored row has its trimmed phone |
| TrimmedPhones.UpdateKeepsTrimmedIff | internal/service/courier/courier.go:51-77 | the same for an update: exactly when it fails, leaves the phone alone, or no other row has the new trimmed phone |
| TrimmedPhones.StepKeepsTrimmedIff | migrations/20251104212220_create_courier_table.sql:3-8 | of all operations, only a successful write of a phone that another row has but for spaces breaks the uniqueness of trimmed phones, and it always does |
| TrimmedPhones.TrimmedWritesStayUnique | internal/service/courier/validators.go:9-21 | over every run in which every phone written by POST or PUT is its own trimmed form, trimmed phones stay unique |
| TrimmedPhones.SpacedPhoneIsAnotherKey | internal/service/courier/validators.go:9-21 | witness for the two conditions: the same number with a space in front is stored as a second courier |
| Validators.BlankIffAllSpaces | internal/service/courier/validators.go:5-7 | a name or order id is refused exactly when all its characters are spaces |
| Validators.PhoneIffSpelled | internal/service/courier/validators.go:9-21 | a phone is valid exactly when it is a plus sign followed by any number of digits, with any spaces around them |
| BusyCouriers.RunKeepsTiming | internal/service/delivery/delivery.go:112-122 | every stored delivery has created_at <= assigned_at, deadline at least 5 minutes after created_at and at most 15 after assigned_at, over every run |
| BusyCouriers.RunKeepsBusyOwnRows | internal/service/delivery/delivery.go:58-72 | while POST and PUT never write "busy", every busy courier owns a delivery row |
| BusyCouriers.BoundedIffBusyOwnRows | internal/repository/delivery/delivery.go:136-147 | after a cleanup at any time, every courier still busy has no expired delivery and one assigned within 15 minutes: exactly in the states where busy couriers own rows |
| BusyCouriers.BoundedBusyTime | internal/repository/delivery/delivery.go:135-155 | hence in every run from empty tables where POST and PUT never write "busy" |
| BusyCouriers.PostedBusyIsStuck | internal/service/courier/courier.go:36-38 | a courier created as busy is not released by a cleanup at any time |
| BusyCouriers.BusyAtMostRows | internal/service/delivery/delivery.go:124-138 | in such runs busy couriers never outnumber delivery rows |
| Accounting.LoadIsCardinality | internal/repository/delivery/delivery.go:110 | the filtered count is the number of the courier's deliveries with deadline >= now |
| Accounting.OthersIsCardinality | internal/repository/delivery/delivery.go:80-90 | the self-join's count is the number of that courier's active deliveries of other orders |
| Accounting.AssignTakesFewestActive | internal/repository/delivery/delivery.go:102-112 | an assignment goes to the available courier with the fewest rows with deadline >= now, and among those to the least id |
| Accounting.UnassignIffOthersExpired | internal/repository/delivery/delivery.go:80-90 | an order with a row can be unassigned exactly when every other order of its courier has deadline < now; otherwise "has active deliveries" |
| Accounting.GrantDeadline | internal/pkg/factory/delivery_deadline/factory.go:15-29 | the chosen courier is busy and one row is appended, with the request's times and, like the answer, a deadline 15, 10 or 5 minutes after its base for a courier on foot, with a scooter or a car, and 15 for any other; nothing else changes |
| Accounting.GrantCountsUntilDeadline | internal/service/delivery/delivery.go:112-124 | the grant counts towards its courier's load, and no other's, at exactly the instants up to that deadline |
| Accounting.GrantRaisesOneLoad | internal/service/delivery/delivery.go:112-124 | a successful assignment raises the chosen courier's active load by exactly one and no other's |
| Accounting.UnassignLeavesIdle | internal/service/delivery/delivery.go:49-69 | after a successful unassignment exactly the order's row is gone, its courier is available with active load 0, and every other courier row is as before |
| Accounting.CompletionFreesCourier | internal/service/delivery/delivery.go:155-180 | a successful completion makes the courier of the order's row available, whatever its status was, and changes nothing else |
| Accounting.UndoLater | internal/service/delivery/delivery.go:48-80 | at any later time an unassignment right after an assignment succeeds exactly when the chosen courier had no active delivery; then it restores the delivery table and all courier fields but updated_at; else nothing changes |
| Accounting.UndoAtOnce | internal/service/delivery/delivery.go:48-80 | at the same instant: exactly when some available courier was idle before the assignment |
| Accounting.RunLedger | internal/service/delivery/delivery.go:58-61 | over every run the number of delivery rows changes by successful assignments minus successful unassignments |
| CleanupAlgebra.CleanupsCompose | internal/repository/delivery/delivery.go:135-155 | cleanup at t1 then t2 >= t1 leaves what cleanup at t2 leaves (but updated_at) and the row counts add up |
| CleanupAlgebra.CleanupIsIdempotent | internal/repository/delivery/delivery.go:135-155 | repeating a cleanup at the same instant changes nothing and affects 0 rows |
| CleanupAlgebra.CleanupMovesCount | internal/service/delivery/delivery.go:87-97 | busy falls and available rises by exactly the returned count; couriers that were not busy are untouched |
| CleanupAlgebra.CleanupReleasesOverdue | internal/repository/delivery/delivery.go:135-155 | a cleanup makes exactly the busy couriers with a delivery of deadline < now available, with updated_at = now, leaves every other row alone and returns their number; it fails only if its statement does |
| CleanupAlgebra.CleanupsSpareIff | internal/repository/delivery/delivery.go:136-147 | over any run of cleanups, failing ones included, a busy courier keeps its row exactly when no successful one came after a deadline of its deliveries; otherwise it is available |
| CleanupAlgebra.GrantSurvivesCleanupsIff | internal/repository/delivery/delivery.go:136-147 | after an assignment the courier is busy through any cleanups up to the new deadline exactly when none of them came after the deadline of an older row of that courier |
| PartialUpdates.UpdateSetsFields | internal/service/courier/courier.go:51-77 | an update succeeds exactly when its fields are valid, its row exists and no other courier has its phone; it sets the present fields of that row, returns it, and changes nothing else |
| PartialUpdates.UpdatesCompose | internal/repository/courier/courier.go:52-107 | two updates of one courier that both succeed equal one update with the later fields overriding |
| PartialUpdates.UpdatesCommute | internal/repository/courier/courier.go:58-72 | updates of disjoint fields commute: if one order succeeds so does the other, with the same table |
| Consumption.FinishKeeps | internal/handlers/kafka-consumer/order_status_changed/handler.go:93-132 | giving a message its verdict, marking it or stopping, keeps the at-least-once invariant |
| Worker.ConsumedAtLeastOnce | internal/handlers/kafka-consumer/order_status_changed/handler.go:39-60 | in every run with restarts from any offset at or below the mark: marked messages are a prefix of the log, a message is marked exactly when it got a verdict other than cancellation, and within a session nothing after a cancelled message is processed |
| Worker.NoResurrectionIff | internal/service/order/order.go:25-50 | after a successful unassignment of an order that stays cancelled, no later moves ever give it a row, exactly when no partition held an answer "created" for it |
| Worker.NoResurrection | internal/service/order/order.go:30-47 | with the order's events in one partition, from the start of the system: once unassigned, never a row again, whatever stale, duplicated, reordered or replayed events follow |
| Worker.OnlyAssignAddsRow | internal/pkg/factory/order_handle/factory.go:21-56 | no operation but assigning that order gives an order a row |
| Redelivery.HandlingKeepsIff | internal/service/order/order.go:25-50 | in any state, handling an answer leaves both tables as they were (but for updated_at) exactly when the order cannot be assigned, cannot be unassigned, or cannot be completed or has an available courier, by its status |
| Redelivery.RedeliveryKeepsIff | internal/handlers/kafka-consumer/order_status_changed/handler.go:93-132 | after a message was handled and any operations that did not assign or unassign its order, handling it again with the same answer changes nothing but updated_at, exactly unless it is a completion whose courier is no longer available |
| Witnesses.CancelledOrderComesBack | internal/service/order/order.go:25-50 | from the empty system, two partitions reach an unassignment that succeeds while the other partition holds "created", and the cancelled order then gets a row again |
| Witnesses.UndoCanBeRefused | internal/service/delivery/delivery.go:54-56 | with one courier: assign, complete, assign another order; unassigning that one at once is refused for active deliveries |
| Witnesses.CleanupFreesServingCourier | internal/repository/delivery/delivery.go:136-147 | from the empty system: a courier assigned again six minutes after a completed order is made available by the next cleanup, five minutes before the new deadline |
| Witnesses.ReplayFreesBusyCourier | internal/service/delivery/delivery.go:155-180 | in the state so reached, the first order's completion handled again makes the courier available while the second order is active |
| Handlers.OrderService.ProcessOrderStatusChange | internal/service/order/order.go:25-50 | in place: the order service's answer alone decides which operation runs; unknown statuses do nothing |
| Interruptions.InterruptedIff | internal/handlers/kafka-consumer/order_status_changed/handler.go:69-132 | for every message and every injected failure: exactly when a cancelled or timed-out context met the status request or a statement the transaction reaches, the session stops with the mark unchanged, the message can be read again and both tables are as before; every other failure and every success is marked and the session goes on |
| Handlers.ClaimHandler.MessageProcessing | internal/handlers/kafka-consumer/order_status_changed/handler.go:65-133 | in place: one message is the machine's two moves; it stops, unmarked, exactly when a cancelled or timed-out context was met |
| Handlers.ClaimHandler.ConsumeClaim | internal/handlers/kafka-consumer/order_status_changed/handler.go:39-60 | the loop amounts to the machine's moves for the messages it handled, and stops early only when interrupted |
| Handlers.HandleUnfolds | internal/handlers/kafka-consumer/order_status_changed/handler.go:69-118 | the two moves of a message, in one: unreadable messages touch no table, others leave what processing leaves |
| RateLimiter.TokenBucket.Allow | pkg/token_bucket/rate_limiter.go:35-46 | in place: the tokens due are added up to the capacity and one is taken, or the request is refused when there is none |
| RateLimiter.TokenBucket.RefillTokens | pkg/token_bucket/rate_limiter.go:48-64 | in place: whole tokens only, capped; the timestamp moves only when at least one is credited |
| RateLimiter.WindowBound | pkg/token_bucket/rate_limiter.go:35-64 | in every run any window [s,t] admits at most capacity + ceil(rate(t-s)) requests |
| RateLimiter.WindowBoundIsTight | pkg/token_bucket/rate_limiter.go:35-64 | for every capacity, rate and window some start and some run reach that bound, exactly when the capacity is at least 1 (or nothing is due in the window) |
| RateLimiter.LifetimeBound | pkg/token_bucket/rate_limiter.go:26-64 | from construction at t0 at most capacity + floor(rate(t-t0)) are admitted up to t |
| RateLimiter.Conservation | pkg/token_bucket/rate_limiter.go:35-64 | tokens = capacity + credited - discarded by the cap - admitted, after every run |
| RateLimiter.LosesLessThanHalf | pkg/token_bucket/rate_limiter.go:48-63 | at a call at t more than (rate(t-t0)-1)/2 tokens have been credited (before the cap), and at most rate(t-t0) |
| RateLimiter.RefusedMeansServed | pkg/token_bucket/rate_limiter.go:35-64 | when a call at t is refused and the cap discarded nothing, more than capacity + (rate(t-t0)-1)/2 requests have been admitted |
| RateLimiter.HalfIsSharp | pkg/token_bucket/rate_limiter.go:55-63 | a family of runs whose loss comes as close to half as one likes |
| RateLimiter.CallAddsWhatIsDue | pkg/token_bucket/rate_limiter.go:35-64 | one call adds floor(elapsed * rate) tokens up to the capacity (none if the clock went back) and takes one if there is one; the timestamp moves exactly when a token was due |
| RateLimiter.BurstGetsWhatIsDue | pkg/token_bucket/rate_limiter.go:35-64 | of n requests at one instant exactly min(n, min(capacity, tokens + floor(elapsed * rate))) are admitted |
| RateLimiter.RefusedIff | pkg/token_bucket/rate_limiter.go:41-45 | a request is refused exactly when no token is left and less than one is due, or the capacity is 0 |

## Left out

- PostgreSQL itself: locks, snapshots, serialization failures and their codes; a transaction is atomic and a failed commit is a rollback, so a commit that took effect although its caller saw an error is not modelled.
- Text the database refuses (NUL characters, invalid UTF-8), and its silent truncation of an order id whose characters beyond the 255th are all spaces: here every order id over 255 characters is refused.
- Whether an insert that fails draws an id from the sequence: modelled as always drawing one once it runs; no property depends on it.
- Time zones, microsecond rounding and monotonic-clock readings: one clock.
- Floating-point rounding and integer overflow in the token bucket, and negative capacity or rate.
- The mutex of the token bucket: a call is one step, and callers interleave as an arbitrary sequence of calls.
- The gRPC gateway, retries and sarama: replaced by an arbitrary answer per message and an arbitrary restart offset at or below the mark. A session of a partition is closed before the next one opens, so two consumers that both believe they own a partition are not modelled.
- The claim loop of `ConsumeClaim` runs over the messages delivered until the channel or the session closes; waiting for a message is not modelled.
- `GetByID`, `GetAll`, `GetLastAssignedDeliveryTime` and the read-only service calls: they change nothing.
- REST handlers, JSON, middlewares, metrics, logging, configuration, wiring, shutdown, `pkg/background/worker.go` and `internal/handlers/tasks/order_processing/order_processing.go`.
- Convergence of cancellations: a cancellation refused because of other active deliveries is marked and not retried, so it is not claimed.
