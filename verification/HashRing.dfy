/** The ring that the torrent thread and the hash worker share: jobs go in at the tail, the worker
    hashes them in order, results come out at the head. Each method is one stretch of work under the
    ring's mutex, or the worker's work between two such stretches; any sequence of calls is a possible
    interleaving of the two threads. */
module HashRing {
  const SIZE := 2

  /** A piece handed over for hashing: its buffer and how many bytes of it count. */
  datatype Job = Job(idx: nat, buf: nat, plen: nat)

  datatype Entry = Entry(job: Job, done: bool, ok: bool)

  /** Where the worker is: waiting, holding the job it found in entry `at`, or holding its verdict. */
  datatype Worker = Idle | Taken(at: nat, job: Job) | Hashed(at: nat, job: Job, ok: bool)

  /** The place in the ring of the entry `k` behind the head. */
  function Spot(head: nat, k: nat): (at: nat)
    ensures at < SIZE
  {
    (head + k) % 2
  }

  /** The jobs in the ring, oldest first. */
  function Queued(q: seq<Entry>, head: nat, count: nat): (s: seq<Job>)
    requires |q| == SIZE
    ensures |s| == count
  {
    seq(count, k requires 0 <= k < count => q[Spot(head, k)].job)
  }

  class Ring {
    const q: array<Entry>
    var head: nat
    var count: nat
    var hashed: nat
    var worker: Worker
    /** The verdict each queued job has to get, as its bytes decide. */
    ghost var due: seq<bool>

    ghost predicate Shape()
      reads this
    {
      q.Length == SIZE && head < SIZE && hashed <= count <= SIZE && |due| == count
    }

    ghost function Jobs(): (s: seq<Job>)
      requires Shape()
      reads this, q
      ensures |s| == count
    {
      Queued(q[..], head, count)
    }

    /** An entry is done exactly when the worker has counted it, and then its verdict is the right one. */
    ghost predicate Counted()
      requires Shape()
      reads this, q
    {
      && (forall k {:trigger Spot(head, k)} :: 0 <= k < count ==> (q[Spot(head, k)].done <==> k < hashed))
      && (forall k {:trigger due[k]} :: 0 <= k < hashed ==> q[Spot(head, k)].ok == due[k])
    }

    /** The entry the worker holds is the oldest unhashed one, and nobody has touched it. */
    ghost predicate Held()
      requires Shape()
      reads this, q
    {
      && (worker != Idle ==>
            hashed < count && worker.at == Spot(head, hashed) && worker.job == q[worker.at].job)
      && (worker.Hashed? ==> worker.ok == due[hashed])
    }

    ghost predicate Valid()
      reads this, q
    {
      Shape() && Counted() && Held()
    }

    constructor ()
      ensures Valid() && Jobs() == [] && due == [] && worker == Idle && fresh(q)
    {
      q := new Entry[SIZE](_ => Entry(Job(0, 0, 0), false, false));
      head, count, hashed, worker, due := 0, 0, 0, Idle, [];
    }

    /** The tail half of `hash_enqueue`: a new job behind all others. */
    method Push(job: Job, ghost verdict: bool)
      requires Valid() && count < SIZE
      modifies this`count, this`due, q
      ensures Valid() && Jobs() == old(Jobs()) + [job] && due == old(due) + [verdict]
    {
      forall k | 0 <= k < count
        ensures Spot(head, k) != Spot(head, count)
      {
        SpotsDiffer(head, k, count);
      }
      q[Spot(head, count)] := Entry(job, false, false);
      count := count + 1;
      due := due + [verdict];
    }

    /** Is there a finished job at the head? */
    method HeadDone() returns (done: bool)
      requires Valid()
      ensures done <==> hashed > 0
    {
      assert count > 0 ==> Spot(head, 0) == head;
      done := count > 0 && q[head].done;
    }

    /** Takes the finished job at the head out. */
    method Pop() returns (job: Job, ok: bool)
      requires Valid() && hashed > 0
      modifies this`head, this`count, this`hashed, this`due
      ensures Valid() && [job] + Jobs() == old(Jobs()) && [ok] + due == old(due)
      ensures hashed == old(hashed) - 1
    {
      assert Spot(head, 0) == head;
      job, ok := q[head].job, q[head].ok;
      SpotMoves(head);
      head := Spot(head, 1);
      count := count - 1;
      hashed := hashed - 1;
      due := due[1..];
    }

    /** The worker finds the oldest unhashed job. */
    method Take()
      requires Valid() && worker == Idle && hashed < count
      modifies this`worker
      ensures Valid() && worker.Taken? && worker.job == Jobs()[hashed]
    {
      var at := Spot(head, hashed);
      worker := Taken(at, q[at].job);
    }

    /** The worker hashes the job's bytes; no lock is held. */
    method Hash(ok: bool)
      requires Valid() && worker.Taken? && ok == due[hashed]
      modifies this`worker
      ensures Valid() && worker.Hashed?
    {
      worker := Hashed(worker.at, worker.job, ok);
    }

    /** The worker writes its verdict into the entry it took the job from. */
    method Publish()
      requires Valid() && worker.Hashed?
      modifies this`worker, this`hashed, q
      ensures Valid() && worker == Idle && hashed == old(hashed) + 1 && Jobs() == old(Jobs())
    {
      q[worker.at] := q[worker.at].(ok := worker.ok, done := true);
      hashed := hashed + 1;
      worker := Idle;
    }
  }

  /** Moving the head by one shifts every entry's number by one. */
  lemma SpotMoves(head: nat)
    ensures forall k: nat {:trigger Spot(Spot(head, 1), k)} :: Spot(Spot(head, 1), k) == Spot(head, k + 1)
  {
  }

  /** No two of the entries in use share a place. */
  lemma SpotsDiffer(head: nat, j: nat, k: nat)
    requires j < k < j + SIZE
    ensures Spot(head, j) != Spot(head, k)
  {
  }
}
