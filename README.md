# Connection buffer of the multithreaded web server

The server accepts connections on one thread and hands them to a pool of
worker threads through a fixed-capacity buffer, the `Connection_Manager` of
`concurrency-webserver/src/wserver.c`. The buffer is an array of connection
handles (`connections`) with a capacity (`max_size`), a count of pending
handles (`current_size`) and a scheduling flag (`shedalg`: 1 is FIFO, 0 is
shortest-file-first). Under FIFO, `push` writes a handle into the first free
slot and `pop` reads slot 0, drops the count and compacts the array with
`Connection_Manager_sort`, which moves every slot one place to the front and
clears what it vacates. Under shortest-file-first both operations do nothing
and `pop` returns 0.

The project has two modules.

- `WServer` (`wserver.dfy`) models the buffer as the class
  `ConnectionManager`, with the array, the two counts as `int` fields and the
  flag. `Valid()` is the capacity invariant `0 <= currentSize <= maxSize`
  together with `connections.Length == maxSize`, and `Pending()` is the live
  prefix `connections[..currentSize]`. `Push` and `Pop` update the array
  and the count in place. Their postconditions give the whole new state and
  also state the effect on `Pending()`. `Sort` updates the array only: it is
  the shift loop, proved against the function `ShiftLeft`. On a FIFO buffer,
  `Drive` replays through `Push` and `Pop` any history that never has to
  wait. Three client methods run concrete sequences of pushes and pops on a
  fresh buffer.
- `FifoModel` (`fifo_model.dfy`) is a reference model of the queue
  discipline. `Run` plays a history of push and pop requests against a
  buffer of given capacity. A request that would have to wait (a push on a
  full buffer, a pop on an empty one) makes the history impossible. Under
  FIFO, the postconditions of `Push` and `Pop` say that each call is a
  one-request `Run`, and `RunConcat` composes such runs. The lemmas then show three things.
  No handle is lost or duplicated. Handles are served in arrival order. The
  capacity bound holds after any history.

The waits in the source become preconditions. A `push` that finds the buffer
full waits on a condition variable and then does the same write as the
non-blocking branch (wserver.c lines 83-84 repeat 52-53). A `pop` that finds
it empty does the same (lines 153-155 repeat 123-125). So `Push` requires
`shedalg ==> currentSize < maxSize`, and `Pop` requires
`shedalg ==> currentSize > 0`: the state in which the waiting caller resumes.

## Model

| member | source | states |
|---|---|---|
| `WServer.ConnectionManager.constructor` | concurrency-webserver/src/wserver.c:28-37 | the buffer has exactly `size` slots, `max_size == size`, `current_size == 0`, the policy is the one given, and nothing is pending |
| `WServer.ConnectionManager.Pending` | concurrency-webserver/src/wserver.c:21-26 | there are exactly `current_size` pending handles, the ones in the live prefix `connections[0..current_size)` |
| `WServer.ConnectionManager.Push` | concurrency-webserver/src/wserver.c:43-104 | under FIFO on a non-full buffer: `new_conn` lands in slot `old(current_size)`, the count goes up by one, every other slot is unchanged, the handle is appended to the pending sequence, and the call is a one-push run of the reference model; under shortest-file-first nothing changes; the capacity invariant is kept and the array, `max_size` and `shedalg` stay the same |
| `WServer.ConnectionManager.Sort` | concurrency-webserver/src/wserver.c:106-111 | the array afterwards is the left shift of the array before: slot `i` holds the old slot `i+1` for `i < max_size-1`, the last slot is 0 when `max_size >= 2`, and a one-slot array is unchanged |
| `WServer.ConnectionManager.Pop` | concurrency-webserver/src/wserver.c:113-175 | under FIFO on a non-empty buffer: returns the old slot 0 (the oldest pending handle), the count goes down by one, the array is the left shift of the old one, the pending sequence loses its head, and the call is a one-pop run of the reference model; under shortest-file-first it returns 0 and nothing changes; the capacity invariant is kept and `max_size` and `shedalg` stay the same |
| `WServer.ShiftLeft` | concurrency-webserver/src/wserver.c:106-111 | the compaction of an array keeps its length, moves each slot's right neighbour into it, clears the last slot of an array of two or more, and leaves an array of at most one slot as it is |
| `WServer.ShiftLeftKeepsLive` | concurrency-webserver/src/wserver.c:123-125 | after the count drops from `n` to `n-1` and the array is compacted, the live prefix is the old live prefix without its head |
| `WServer.Drive` | concurrency-webserver/src/wserver.c:43-175 | any history of push and pop requests that never has to wait, replayed on a FIFO buffer as calls to `Push` and `Pop`, leaves the buffer and hands out handles exactly as the reference run does; the handles handed out followed by those still pending are the initial pending handles followed by every handle pushed |
| `WServer.TwoSlotScenario` | concurrency-webserver/src/wserver.c:43-175 | with two slots under FIFO, pushing A and B, popping, pushing C and popping twice serves A, B, C in that order |
| `WServer.OneSlotScenario` | concurrency-webserver/src/wserver.c:43-175 | with one slot under FIFO, alternating push and pop serves every handle in the order given |
| `WServer.ShortestFirstScenario` | concurrency-webserver/src/wserver.c:102-174 | under shortest-file-first a pushed handle is never served and pop yields 0 |
| `FifoModel.AcceptedAppend` | concurrency-webserver/src/wserver.c:52-53 | the handles pushed by a history split in two are those pushed by its first part followed by those pushed by its second |
| `FifoModel.RunPushOne` | concurrency-webserver/src/wserver.c:45-53 | a push on a buffer that is not full appends the handle at the tail and serves nothing |
| `FifoModel.RunPopOne` | concurrency-webserver/src/wserver.c:116-125 | a pop on a buffer that is not empty serves the head and leaves the rest in order |
| `FifoModel.RunConserves` | concurrency-webserver/src/wserver.c:43-175 | after any history, the handles served followed by the handles still pending equal the handles pending at the start followed by every handle pushed: none is lost, none is duplicated, and they leave in arrival order |
| `FifoModel.RunBounded` | concurrency-webserver/src/wserver.c:45-46 | a buffer that starts within its capacity is within it after any history, since a push proceeds only while `max_size != current_size` |
| `FifoModel.ServedInArrivalOrder` | concurrency-webserver/src/wserver.c:116-125 | from an empty buffer, the handles served are a prefix of the handles pushed, and all of them once the buffer is drained |
| `FifoModel.RunConcat` | concurrency-webserver/src/wserver.c:43-175 | a history run in two parts gives the same result as run whole, so consecutive calls on one buffer form one run |

## Left out

- Locking and waiting: the `pthread` mutex, condition-variable wait, signal, broadcast and init calls and their `perror`/`exit(1)` paths. The waits are modelled as the preconditions above. Two waits in the source are not guarded by a loop: the wait for space in push and the wait for a handle in pop. A wake-up that finds the guard still false is not modelled. Examples are the shutdown broadcast in `int_handler` and a second worker taking the handle first. After such a wake-up the source would write past the array or leave `current_size` at -1.
- The `SIGINT` handler `int_handler` and the `keepRunning` flag: they coordinate shutdown across threads.
- The worker loop `do_the_work`: it is a thread body around `request_handle` and `close_or_die`. `request.c` and `io_helper.c` are not part of this model. Under shortest-file-first that loop hands the 0 returned by `pop` to those calls.
- `main`: option parsing with `getopt`, `chdir_or_die`, `open_listen_fd_or_die`, `accept_or_die`, and thread creation and joining are I/O and thread plumbing.
- `Connection_Manager_destroy` and `malloc`/`free`: Dafny allocation replaces them.
- WServer.ConnectionManager.constructor: it takes a `nat` where the source takes a `ssize_t`. A negative size makes `malloc` fail in the source, and an array cannot have a negative length. Like the buffer from `malloc`, `new int[size]` has arbitrary contents. The compaction shifts the slots beyond `current_size` among themselves, but they never reach the live prefix or a caller (`ShiftLeftKeepsLive`).
- Handles are modelled as unbounded `int`s. The source copies them without doing arithmetic on them, so their 32-bit width plays no part.
