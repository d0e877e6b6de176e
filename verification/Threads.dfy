/** Threads and the mutex they share, used by both queue protocols. */
module Threads {

  datatype Thread = Producing(i: nat) | Consuming(i: nat)

  datatype Mutex = Free | HeldBy(owner: Thread)
}
