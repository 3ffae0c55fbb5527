/**
 The mDNS worker's two rings of sixteen places, refined to sequences; the protocol between the
 main thread and the worker is in MdnsProtocol.
 */
module MdnsWorker {
  import opened Bytes

  const QUEUE_SIZE := 16
  const MAC_LEN := 18
  const IP_LEN := 40
  const HOSTNAME_LEN := 64
  const SRC_LEN := 16

  datatype Task = Task(mac: seq<byte>, ip: seq<byte>)
  datatype Result = Result(mac: seq<byte>, hostname: seq<byte>, src: seq<byte>, success: bool)

  /** What a field of `len` bytes keeps of a C string: all but the last byte, which ends it. */
  function Field(s: seq<byte>, len: nat): seq<byte>
    requires len > 0
  {
    if |CStr(s)| < len then CStr(s) else CStr(s)[..len - 1]
  }

  // ----- Rings

  function Slot(head: nat, i: nat): (k: nat)
    requires head < QUEUE_SIZE && i <= QUEUE_SIZE
    ensures k < QUEUE_SIZE
  {
    if head + i < QUEUE_SIZE then head + i else head + i - QUEUE_SIZE
  }

  /** The `count` elements of a ring from `head` on. */
  function Ring<T>(q: seq<T>, head: nat, count: nat): seq<T>
    requires |q| == QUEUE_SIZE && head < QUEUE_SIZE && count <= QUEUE_SIZE
  {
    seq(count, i requires 0 <= i < count => q[Slot(head, i)])
  }

  lemma RingPush<T>(q: seq<T>, head: nat, count: nat, x: T)
    requires |q| == QUEUE_SIZE && head < QUEUE_SIZE && count < QUEUE_SIZE
    ensures Ring(q[Slot(head, count) := x], head, count + 1) == Ring(q, head, count) + [x]
  {
    var q' := q[Slot(head, count) := x];
    forall i | 0 <= i < count ensures q'[Slot(head, i)] == q[Slot(head, i)] {}
  }

  lemma RingPop<T>(q: seq<T>, head: nat, count: nat)
    requires |q| == QUEUE_SIZE && head < QUEUE_SIZE && 0 < count <= QUEUE_SIZE
    ensures Ring(q, head, count)[0] == q[head]
    ensures Ring(q, Slot(head, 1), count - 1) == Ring(q, head, count)[1..]
  {
    forall i | 0 <= i < count - 1 ensures Slot(Slot(head, 1), i) == Slot(head, i + 1) {}
  }

  lemma SlotNext(head: nat, count: nat)
    requires head < QUEUE_SIZE && 0 < count <= QUEUE_SIZE
    ensures (head + 1) % QUEUE_SIZE == Slot(head, 1) && Slot(Slot(head, 1), count - 1) == Slot(head, count)
  {
  }

  // ----- The operations on sequences

  /** Tasks waiting, results waiting, the stop flag and whether a worker was started. */
  datatype Queues = Queues(tasks: seq<Task>, results: seq<Result>, stop: bool, started: bool)

  function Enqueued(q: Queues, mac: Option<seq<byte>>, ip: Option<seq<byte>>): Option<Queues> {
    if mac.None? || ip.None? || !q.started || |q.tasks| >= QUEUE_SIZE then None
    else Some(q.(tasks := q.tasks + [Task(Field(mac.value, MAC_LEN), Field(ip.value, IP_LEN))]))
  }

  function Pushed(q: Queues, r: Result): Queues {
    if |q.results| >= QUEUE_SIZE then q else q.(results := q.results + [r])
  }

  function Made(mac: seq<byte>, hostname: seq<byte>, src: seq<byte>, success: bool): Result {
    Result(Field(mac, MAC_LEN), Field(hostname, HOSTNAME_LEN), Field(src, SRC_LEN), success)
  }

  /** What the worker reports for a task: the resolver's name, or that it failed. */
  function Report(task: Task, resolved: Option<seq<byte>>): Result {
    match resolved
    case Some(name) => Made(task.mac, name, Ascii("mdns"), true)
    case None => Made(task.mac, [], Ascii("mac"), false)
  }

  function Drainable(q: Queues, outMax: int): nat {
    if outMax <= 0 then 0 else if |q.results| <= outMax then |q.results| else outMax
  }

  /** What the worker finds when it holds the lock. */
  datatype Found = MustWait | MustStop | Next(task: Task)

  function FoundIn(q: Queues): Found {
    if q.stop then MustStop else if q.tasks == [] then MustWait else Next(q.tasks[0])
  }

  function AfterFound(q: Queues): Queues {
    match FoundIn(q)
    case MustStop => q.(tasks := [])
    case MustWait => q
    case Next(_) => q.(tasks := q.tasks[1..])
  }

  // ----- The rings

  class MdnsWorker {
    const taskQ: array<Task>
    var taskHead: nat
    var taskTail: nat
    var taskCount: nat
    const resQ: array<Result>
    var resHead: nat
    var resTail: nat
    var resCount: nat
    var stop: bool
    var started: bool

    ghost predicate Valid()
      reads this
    {
      && taskQ.Length == QUEUE_SIZE && resQ.Length == QUEUE_SIZE
      && taskHead < QUEUE_SIZE && taskCount <= QUEUE_SIZE && taskTail == Slot(taskHead, taskCount)
      && resHead < QUEUE_SIZE && resCount <= QUEUE_SIZE && resTail == Slot(resHead, resCount)
    }

    ghost function View(): Queues
      requires Valid()
      reads this, taskQ, resQ
    {
      Queues(Ring(taskQ[..], taskHead, taskCount), Ring(resQ[..], resHead, resCount), stop, started)
    }

    constructor ()
      ensures Valid() && fresh(taskQ) && fresh(resQ) && View() == Queues([], [], false, false)
    {
      taskQ := new Task[QUEUE_SIZE](_ => Task([], []));
      resQ := new Result[QUEUE_SIZE](_ => Result([], [], [], false));
      taskHead, taskTail, taskCount, resHead, resTail, resCount := 0, 0, 0, 0, 0, 0;
      stop, started := false, false;
    }

    method Start(threadOk: bool) returns (ok: bool)
      requires Valid()
      modifies this
      ensures Valid()
      ensures ok == (old(started) || threadOk)
      ensures View() == if old(started) then old(View()) else Queues([], [], false, threadOk)
    {
      if started { return true; }
      stop := false;
      taskHead, taskTail, taskCount := 0, 0, 0;
      resHead, resTail, resCount := 0, 0, 0;
      if !threadOk { return false; }
      started := true;
      return true;
    }

    /** The part of stop before the join. */
    method Stop()
      requires Valid()
      modifies this
      ensures Valid()
      ensures View() == if old(started) then old(View()).(stop := true, started := false) else old(View())
    {
      if !started { return; }
      started := false;
      stop := true;
    }

    method Enqueue(mac: Option<seq<byte>>, ip: Option<seq<byte>>) returns (ok: bool)
      requires Valid()
      modifies this, taskQ
      ensures Valid() && resQ[..] == old(resQ[..])
      ensures ok == Enqueued(old(View()), mac, ip).Some?
      ensures View() == if ok then Enqueued(old(View()), mac, ip).value else old(View())
    {
      if mac.None? || ip.None? { return false; }
      if !started { return false; }
      if taskCount >= QUEUE_SIZE { return false; }
      var t := Task(Field(mac.value, MAC_LEN), Field(ip.value, IP_LEN));
      RingPush(taskQ[..], taskHead, taskCount, t);
      taskQ[taskTail] := t;
      taskTail := (taskTail + 1) % QUEUE_SIZE;
      taskCount := taskCount + 1;
      return true;
    }

    /** The worker's critical section once it holds the task lock. */
    method TakeTask() returns (found: Found)
      requires Valid()
      modifies this
      ensures Valid()
      ensures found == FoundIn(old(View())) && View() == AfterFound(old(View()))
    {
      if taskCount == 0 && !stop { return MustWait; }
      if stop {
        taskHead, taskTail, taskCount := 0, 0, 0;
        return MustStop;
      }
      RingPop(taskQ[..], taskHead, taskCount);
      found := Next(taskQ[taskHead]);
      taskHead := (taskHead + 1) % QUEUE_SIZE;
      taskCount := taskCount - 1;
    }

    method PushResult(mac: seq<byte>, hostname: seq<byte>, src: seq<byte>, success: bool)
      requires Valid()
      modifies this, resQ
      ensures Valid() && View() == Pushed(old(View()), Made(mac, hostname, src, success))
    {
      if resCount >= QUEUE_SIZE { return; }
      var r := Result(Field(mac, MAC_LEN), Field(hostname, HOSTNAME_LEN), Field(src, SRC_LEN), success);
      RingPush(resQ[..], resHead, resCount, r);
      resQ[resTail] := r;
      resTail := (resTail + 1) % QUEUE_SIZE;
      resCount := resCount + 1;
    }

    method DrainResults(outMax: int) returns (out: seq<Result>)
      requires Valid()
      modifies this`resHead, this`resCount
      ensures Valid()
      ensures var n := Drainable(old(View()), outMax);
              out == old(View()).results[..n] && View() == old(View()).(results := old(View()).results[n..])
    {
      out := [];
      if outMax <= 0 { return; }
      ghost var all := Ring(resQ[..], resHead, resCount);
      hide Ring, Slot;
      while resCount > 0 && |out| < outMax
        invariant resHead < QUEUE_SIZE && resCount <= QUEUE_SIZE && resTail == Slot(resHead, resCount)
        invariant |out| <= outMax && |out| + resCount == |all|
        invariant out == all[..|out|] && Ring(resQ[..], resHead, resCount) == all[|out|..]
      {
        SlotNext(resHead, resCount);
        RingPop(resQ[..], resHead, resCount);
        assert all[|out|..][0] == all[|out|] && all[|out|..][1..] == all[|out| + 1..];
        assert all[..|out| + 1] == all[..|out|] + [all[|out|]];
        out := out + [resQ[resHead]];
        resHead := (resHead + 1) % QUEUE_SIZE;
        resCount := resCount - 1;
      }
    }
  }
}
