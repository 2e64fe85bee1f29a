/** The list of background jobs in background.c: nodes with a next pointer, newest first. */
module TaskList {
  import opened Sequences
  import opened Wrappers
  import opened Lists

  class Task {
    const fd: int
    const toChildFd: int
    const pid: int
    const info: string
    var next: Task?

    constructor (fd: int, toChildFd: int, pid: int, info: string, next: Task?)
      ensures this.fd == fd && this.toChildFd == toChildFd && this.pid == pid && this.info == info && this.next == next
    {
      this.fd, this.toChildFd, this.pid, this.info, this.next := fd, toChildFd, pid, info, next;
    }
  }

  ghost function First(s: seq<Task>): Task? {
    if s == [] then null else s[0]
  }

  /** The nodes of s hang together in this order. */
  ghost predicate Chained(s: seq<Task>)
    reads s`next
  {
    forall i {:trigger s[i].next} :: 0 <= i < |s| ==> s[i].next == First(s[i + 1..])
  }

  /** The position of the first task of a process, or |s|. */
  ghost function ByPid(s: seq<Task>, pid: int): (i: nat)
    ensures i <= |s|
    ensures i < |s| ==> s[i].pid == pid
    ensures forall j :: 0 <= j < i ==> s[j].pid != pid
  {
    if s == [] || s[0].pid == pid then 0 else 1 + ByPid(s[1..], pid)
  }

  /** Where answers to the child behind a descriptor go. */
  ghost function ToChild(s: seq<Task>, fd: int): (r: Option<int>)
    ensures r.None? <==> forall i :: 0 <= i < |s| ==> s[i].fd != fd
    ensures r.Some? ==>
      exists i :: 0 <= i < |s| && s[i].fd == fd && s[i].toChildFd == r.value && forall j :: 0 <= j < i ==> s[j].fd != fd
  {
    if s == [] then None
    else if s[0].fd == fd then Some(s[0].toChildFd)
    else
      assert forall i :: 0 < i < |s| ==> s[i] == s[1..][i - 1];
      ToChild(s[1..], fd)
  }

  /** The same as a descriptor, -1 if there is none. */
  ghost function AnswersTo(s: seq<Task>, fd: int): int {
    var to := ToChild(s, fd);
    if to.None? then -1 else to.value
  }

  /** The list without the first task of a process. */
  ghost function Without(s: seq<Task>, pid: int): seq<Task> {
    var k := ByPid(s, pid);
    if k < |s| then RemoveAt(s, k) else s
  }

  /** The descriptor of the first task of a process, -1 if there is none. */
  ghost function DescriptorOf(s: seq<Task>, pid: int): int {
    var k := ByPid(s, pid);
    if k < |s| then s[k].fd else -1
  }

  /** The channels without that of the first task of a process. */
  ghost function Closed(channels: seq<int>, s: seq<Task>, pid: int): seq<int> {
    var fd := DescriptorOf(s, pid);
    if fd != -1 then Unwatched(channels, fd) else channels
  }

  /** A job leaves exactly if it is asked for by the right process. */
  lemma {:induction false} LeavesIff(s: seq<Task>, k: nat, pid: int)
    requires Distinct(s) && k < |s| && k == ByPid(s, s[k].pid)
    ensures s[k] !in Without(s, pid) <==> pid == s[k].pid
  {
    var j := ByPid(s, pid);
    if j < |s| {
      var r := RemoveAt(s, j);
      assert forall i :: 0 <= i < |r| ==> r[i] == s[if i < j then i else i + 1];
      assert k < j ==> r[k] == s[k];
      assert k > j ==> r[k - 1] == s[k];
    }
  }

  /** Descriptors without the first of these. */
  function Unwatched(channels: seq<int>, fd: int): (r: seq<int>)
    ensures multiset(r) == multiset(channels) - multiset{fd}
  {
    if channels == [] then []
    else
      assert channels == [channels[0]] + channels[1..];
      if channels[0] == fd then channels[1..] else [channels[0]] + Unwatched(channels[1..], fd)
  }

  ghost function Descriptors(s: seq<Task>): multiset<int> {
    if s == [] then multiset{} else multiset{s[0].fd} + Descriptors(s[1..])
  }

  /** -1 is not a descriptor. */
  ghost predicate AllOpen(s: seq<Task>) {
    forall i :: 0 <= i < |s| ==> s[i].fd != -1
  }

  lemma {:induction false} DescriptorsJoin(p: seq<Task>, q: seq<Task>)
    ensures Descriptors(p + q) == Descriptors(p) + Descriptors(q)
    decreases |p|
  {
    if p == [] {
      assert p + q == q;
    } else {
      assert (p + q)[0] == p[0] && (p + q)[1..] == p[1..] + q;
      DescriptorsJoin(p[1..], q);
    }
  }

  lemma {:induction false} DescriptorsWithout(s: seq<Task>, k: nat)
    requires k < |s|
    ensures Descriptors(s) == multiset{s[k].fd} + Descriptors(RemoveAt(s, k))
  {
    DescriptorsOf(s[..k], s[k], s[k + 1..]);
    assert s == s[..k] + ([s[k]] + s[k + 1..]);
  }

  lemma {:induction false} DescriptorsOf(p: seq<Task>, task: Task, q: seq<Task>)
    ensures Descriptors(p + ([task] + q)) == multiset{task.fd} + Descriptors(p + q)
  {
    DescriptorsJoin(p, q);
    DescriptorsJoin(p, [task] + q);
    assert ([task] + q)[1..] == q;
  }

  /** A job and its channel go together. */
  lemma {:induction false} StillWatched(channels: seq<int>, s: seq<Task>, pid: int, others: multiset<int>)
    requires AllOpen(s) && multiset(channels) == Descriptors(s) + others
    ensures multiset(Closed(channels, s, pid)) == Descriptors(Without(s, pid)) + others
  {
    var k := ByPid(s, pid);
    if k < |s| {
      DescriptorsWithout(s, k);
    }
  }

  /** `channels` are the descriptors that the main loop listens to, newest first: those of the tasks
      and those of others. */
  class TaskList {
    var head: Task?
    var channels: seq<int>
    ghost var tasks: seq<Task>

    ghost predicate Valid()
      reads this`head, this`tasks, tasks`next
    {
      head == First(tasks) && Chained(tasks) && Distinct(tasks)
    }

    /** The main loop listens to each task, and to the others. */
    ghost predicate Watched(others: multiset<int>)
      reads this
    {
      multiset(channels) == Descriptors(tasks) + others
    }

    constructor (channels: seq<int>)
      ensures Valid() && tasks == [] && this.channels == channels && Watched(multiset(channels))
    {
      head, tasks, this.channels := null, [], channels;
    }

    /** register_task_running */
    method Register(pid: int, fd: int, toChildFd: int, info: string)
      requires Valid()
      modifies this
      ensures Valid() && |tasks| == |old(tasks)| + 1 && tasks[1..] == old(tasks) && fresh(tasks[0])
      ensures tasks[0].pid == pid && tasks[0].fd == fd && tasks[0].toChildFd == toChildFd && tasks[0].info == info
      ensures ToChild(tasks, fd) == Some(toChildFd)
      ensures channels == [fd] + old(channels) && forall m :: old(Watched(m)) ==> Watched(m)
    {
      channels := [fd] + channels;
      assert allocated(tasks);
      var task := new Task(fd, toChildFd, pid, info, head);
      ghost var all := [task] + tasks;
      assert forall i :: 0 < i < |all| ==> all[i] == tasks[i - 1] && all[i + 1..] == tasks[i..];
      tasks := all;
      head := task;
    }

    /** destroy_task: the newest task of the process goes, and its descriptor is returned. */
    method Destroy(pid: int) returns (fd: int)
      requires Valid()
      modifies this`head, this`tasks, tasks`next
      ensures Valid()
      ensures tasks == Without(old(tasks), pid)
      ensures fd == DescriptorOf(old(tasks), pid)
    {
      var p, prev := head, null;
      ghost var i, s := 0, tasks;
      while p != null
        invariant 0 <= i <= |s| && p == First(s[i..]) && prev == if i == 0 then null else s[i - 1]
        invariant Valid() && tasks == s && head == old(head)
        invariant forall j :: 0 <= j < i ==> s[j].pid != pid
        decreases |s| - i
      {
        if p.pid == pid {
          Skip(s, pid, i);
          fd := p.fd;
          if prev != null {
            prev.next := p.next;
          } else {
            head := p.next;
          }
          tasks := RemoveAt(s, i);
          Unchained(s, i, tasks);
          return;
        }
        prev := p;
        p := p.next;
        i := i + 1;
      }
      Skip(s, pid, i);
      fd := -1;
    }

    /** unregister_task_running: the descriptor need not be that of the job. */
    method UnregisterRunning(pid: int, fd: int)
      requires Valid()
      modifies this`head, this`tasks, this`channels, tasks`next
      ensures Valid() && tasks == Without(old(tasks), pid) && channels == Unwatched(old(channels), fd)
    {
      var gone := Destroy(pid);
      channels := Unwatched(channels, fd);
    }

    /** unregister_task_with_pid: a job and its channel go together. */
    method UnregisterWithPid(pid: int)
      requires Valid()
      modifies this`head, this`tasks, this`channels, tasks`next
      ensures Valid() && tasks == Without(old(tasks), pid) && channels == Closed(old(channels), old(tasks), pid)
      ensures AllOpen(old(tasks)) ==> forall m :: old(Watched(m)) ==> Watched(m)
    {
      ghost var s, c := tasks, channels;
      DestroyWithChannel(pid);
      if AllOpen(s) {
        forall m | multiset(c) == Descriptors(s) + m ensures Watched(m) {
          StillWatched(c, s, pid, m);
        }
      }
    }

    method DestroyWithChannel(pid: int)
      requires Valid()
      modifies this`head, this`tasks, this`channels, tasks`next
      ensures Valid() && tasks == Without(old(tasks), pid) && channels == Closed(old(channels), old(tasks), pid)
    {
      var fd := Destroy(pid);
      if fd != -1 {
        channels := Unwatched(channels, fd);
      }
    }

    /** The loop of background_attention that finds the job behind a descriptor. */
    method Find(fd: int) returns (toChildFd: int)
      requires Valid()
      ensures toChildFd == AnswersTo(tasks, fd)
    {
      var p := head;
      ghost var i := 0;
      while p != null
        invariant 0 <= i <= |tasks| && p == First(tasks[i..])
        invariant ToChild(tasks, fd) == ToChild(tasks[i..], fd)
        decreases |tasks| - i
      {
        if p.fd == fd {
          return p.toChildFd;
        }
        assert tasks[i..][1..] == tasks[i + 1..];
        p := p.next;
        i := i + 1;
      }
      toChildFd := -1;
    }
  }

  lemma {:induction false} Skip(s: seq<Task>, pid: int, i: nat)
    requires i <= |s| && forall j :: 0 <= j < i ==> s[j].pid != pid
    requires i == |s| || s[i].pid == pid
    ensures ByPid(s, pid) == i
  {
    var k := ByPid(s, pid);
  }

  /** One node was bridged. */
  lemma {:induction false} Unchained(s: seq<Task>, k: nat, r: seq<Task>)
    requires k < |s| && r == RemoveAt(s, k) && Distinct(s)
    requires forall i {:trigger s[i].next} :: 0 <= i < |s| && i + 1 != k ==> s[i].next == First(s[i + 1..])
    requires k > 0 ==> s[k - 1].next == First(s[k + 1..])
    ensures Chained(r) && Distinct(r)
    ensures First(r) == if k == 0 then First(s[1..]) else s[0]
  {
    forall i | 0 <= i < |r| ensures r[i].next == First(r[i + 1..]) {
      if i < k {
        assert r[i] == s[i];
        assert r[i + 1..] == if i + 1 == k then s[k + 1..] else RemoveAt(s, k)[i + 1..];
      } else {
        assert r[i] == s[i + 1];
        assert r[i + 1..] == s[i + 2..];
      }
    }
    forall i, j | 0 <= i < j < |r| ensures r[i] != r[j] {
      assert r[i] == s[if i < k then i else i + 1] && r[j] == s[if j < k then j else j + 1];
    }
  }
}
