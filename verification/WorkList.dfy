/** The elaboration work list (the loop in `elaborate(list<perm_string>)`, elaborate.cc): items
    queue further items, and the queue is emptied pass by pass.
 */
module WorkList {

  /** A scope to elaborate, with the scopes that elaborating it will queue, in order. */
  datatype Tree = Node(id: nat, kids: seq<Tree>)

  /** Work items. The defparam items carry the number of the pass that queued them. */
  datatype Task = Scope(t: Tree) | TopDefparams(pass: nat) | LaterDefparams(pass: nat)

  function Max(a: nat, b: nat): nat {
    if a < b then b else a
  }

  function Height(ts: seq<Tree>): nat {
    if ts == [] then 0 else Max(1 + Height(ts[0].kids), Height(ts[1..]))
  }

  /** Everything the items of one level queue. */
  function Kids(ts: seq<Tree>): seq<Tree> {
    if ts == [] then [] else ts[0].kids + Kids(ts[1..])
  }

  function Scopes(ts: seq<Tree>): (r: seq<Task>)
    ensures |r| == |ts| && forall i | 0 <= i < |ts| :: r[i] == Scope(ts[i])
  {
    seq(|ts|, i requires 0 <= i < |ts| => Scope(ts[i]))
  }

  lemma {:induction false} HeightAppend(a: seq<Tree>, b: seq<Tree>)
    ensures Height(a + b) == Max(Height(a), Height(b))
  {
    if a == [] {
      assert a + b == b;
    } else {
      assert (a + b)[1..] == a[1..] + b;
      HeightAppend(a[1..], b);
    }
  }

  /** One level down there is one level less. */
  lemma {:induction false} KidsHeight(ts: seq<Tree>)
    ensures Height(Kids(ts)) == (if ts == [] then 0 else Height(ts) - 1)
  {
    if ts != [] {
      KidsHeight(ts[1..]);
      HeightAppend(ts[0].kids, Kids(ts[1..]));
    }
  }

  // ----- the schedule -----

  /** The queue at the start of pass `k`: the scopes of its level, then what the previous pass
      queued behind them. */
  function Queue(level: seq<Tree>, k: nat): seq<Task> {
    if level == [] then [] else Scopes(level) + (if k == 0 then [] else [LaterDefparams(k - 1)])
  }

  function Segment(level: seq<Tree>, k: nat): seq<Task> {
    Queue(level, k) + [TopDefparams(k)]
  }

  /** The order in which everything runs: pass by pass, each on the level the previous one made. */
  function Schedule(level: seq<Tree>, k: nat): seq<Task>
    decreases Height(level)
  {
    if level == [] then [] else
    KidsHeight(level);
    Segment(level, k) + Schedule(Kids(level), k + 1)
  }

  function LevelAt(ts: seq<Tree>, d: nat): seq<Tree>
    decreases d
  {
    if d == 0 then ts else LevelAt(Kids(ts), d - 1)
  }

  /** The first `d` passes. */
  function Passes(ts: seq<Tree>, k: nat, d: nat): seq<Task>
    decreases d
  {
    if d == 0 then [] else Segment(ts, k) + Passes(Kids(ts), k + 1, d - 1)
  }

  /** Pass discipline: the schedule is a sequence of passes, one for each level of the forest. Pass `d` runs
      the scopes of depth `d`, then the defparams the pass before queued, then its own top defparams. */
  lemma PassDiscipline(ts: seq<Tree>, d: nat)
    requires d < Height(ts)
    ensures Schedule(ts, 0)
            == Passes(ts, 0, d)
             + (Scopes(LevelAt(ts, d)) + (if d == 0 then [] else [LaterDefparams(d - 1)]) + [TopDefparams(d)]
                + Schedule(LevelAt(ts, d + 1), d + 1))
  {
    hide *;
    FirstPasses(ts, 0, d);
    LevelHeight(ts, d);
    LevelStep(ts, d);
    NotEmpty(LevelAt(ts, d));
    PassSpelledOut(LevelAt(ts, d), d);
  }

  lemma NotEmpty(ts: seq<Tree>)
    ensures Height(ts) > 0 ==> ts != []
  {
  }

  lemma PassSpelledOut(level: seq<Tree>, d: nat)
    requires level != []
    ensures Schedule(level, d)
            == Scopes(level) + (if d == 0 then [] else [LaterDefparams(d - 1)]) + [TopDefparams(d)] + Schedule(Kids(level), d + 1)
  {
    hide Scopes, Kids;
  }

  /** So whatever a pass creates runs after that pass's top defparams and before the later defparams it
      queued, which run once, just before the next top defparams. */
  lemma CreatedRunsBetween(ts: seq<Tree>, d: nat) returns (before: seq<Task>, after: seq<Task>)
    requires d + 1 < Height(ts)
    ensures Schedule(ts, 0)
            == before + [TopDefparams(d)] + Scopes(LevelAt(ts, d + 1)) + [LaterDefparams(d), TopDefparams(d + 1)] + after
    ensures LaterDefparams(d) !in before && TopDefparams(d) !in before
    ensures LaterDefparams(d) !in after && TopDefparams(d + 1) !in after
  {
    hide Schedule, Scopes, Height, LevelAt, Passes;
    PassDiscipline(ts, d);
    PassSpelledOutAt(ts, d + 1);
    var front := Scopes(LevelAt(ts, d)) + (if d == 0 then [] else [LaterDefparams(d - 1)]);
    var next := Scopes(LevelAt(ts, d + 1));
    before, after := Passes(ts, 0, d) + front, Schedule(LevelAt(ts, d + 2), d + 2);
    assert Passes(ts, 0, d) + (front + [TopDefparams(d)] + (next + [LaterDefparams(d)] + [TopDefparams(d + 1)] + after))
           == before + [TopDefparams(d)] + next + [LaterDefparams(d), TopDefparams(d + 1)] + after;
    PassNumbers(ts, 0, d);
    ScheduleNumbers(LevelAt(ts, d + 2), d + 2);
    assert forall t | t in front :: t.Scope? || t == LaterDefparams(d - 1);
  }

  lemma PassSpelledOutAt(ts: seq<Tree>, d: nat)
    requires 0 < d < Height(ts)
    ensures Schedule(LevelAt(ts, d), d)
            == Scopes(LevelAt(ts, d)) + [LaterDefparams(d - 1)] + [TopDefparams(d)] + Schedule(LevelAt(ts, d + 1), d + 1)
  {
    hide *;
    LevelHeight(ts, d);
    LevelStep(ts, d);
    NotEmpty(LevelAt(ts, d));
    PassSpelledOut(LevelAt(ts, d), d);
  }

  /** The defparam items of the first passes carry the numbers of those passes. */
  lemma {:induction false} PassNumbers(ts: seq<Tree>, k: nat, d: nat)
    ensures forall t | t in Passes(ts, k, d) :: t.Scope? || t.pass < k + d
    decreases d
  {
    if d > 0 { PassNumbers(Kids(ts), k + 1, d - 1); }
  }

  lemma {:induction false} ScheduleNumbers(level: seq<Tree>, k: nat)
    ensures forall t | t in Schedule(level, k) :: (t.LaterDefparams? ==> t.pass + 1 >= k) && (t.TopDefparams? ==> t.pass >= k)
    decreases Height(level)
  {
    if level != [] {
      KidsHeight(level);
      ScheduleNumbers(Kids(level), k + 1);
    }
  }

  /** What a level queues, it queues in its own order. */
  lemma {:induction false} KidsAppend(a: seq<Tree>, b: seq<Tree>)
    ensures Kids(a + b) == Kids(a) + Kids(b)
    ensures forall t: Tree :: Kids([t]) == t.kids
  {
    if a == [] {
      assert a + b == b;
      forall t: Tree ensures Kids([t]) == t.kids { assert [t][1..] == [] && Kids([]) == []; }
    } else {
      assert (a + b)[1..] == a[1..] + b;
      KidsAppend(a[1..], b);
    }
  }

  lemma {:induction false} LevelHeight(ts: seq<Tree>, d: nat)
    requires d <= Height(ts)
    ensures Height(LevelAt(ts, d)) == Height(ts) - d
    decreases d
  {
    if d > 0 {
      KidsHeight(ts);
      LevelHeight(Kids(ts), d - 1);
    }
  }

  lemma ScheduleStep(level: seq<Tree>, k: nat)
    requires level != []
    ensures Schedule(level, k) == Segment(level, k) + Schedule(Kids(level), k + 1)
  {
  }

  lemma PrependPass(ts: seq<Tree>, k: nat, d: nat, rest: seq<Task>)
    requires ts != [] && d > 0 && Schedule(Kids(ts), k + 1) == Passes(Kids(ts), k + 1, d - 1) + rest
    ensures Schedule(ts, k) == Passes(ts, k, d) + rest
  {
    ScheduleStep(ts, k);
    Associative(Segment(ts, k), Passes(Kids(ts), k + 1, d - 1), rest);
  }

  lemma {:induction false} FirstPasses(ts: seq<Tree>, k: nat, d: nat)
    requires d <= Height(ts)
    ensures Schedule(ts, k) == Passes(ts, k, d) + Schedule(LevelAt(ts, d), k + d)
    decreases d
  {
    hide *;
    if d == 0 {
      NoPass(ts, k);
    } else {
      KidsBelow(ts, d);
      FirstPasses(Kids(ts), k + 1, d - 1);
      OnePassMore(ts, k, d);
    }
  }

  lemma NoPass(ts: seq<Tree>, k: nat)
    ensures Schedule(ts, k) == Passes(ts, k, 0) + Schedule(LevelAt(ts, 0), k + 0)
  {
  }

  lemma KidsBelow(ts: seq<Tree>, d: nat)
    requires 0 < d <= Height(ts)
    ensures ts != [] && d - 1 <= Height(Kids(ts))
  {
    KidsHeight(ts);
  }

  lemma OnePassMore(ts: seq<Tree>, k: nat, d: nat)
    requires ts != [] && d > 0
    requires Schedule(Kids(ts), k + 1) == Passes(Kids(ts), k + 1, d - 1) + Schedule(LevelAt(Kids(ts), d - 1), k + 1 + (d - 1))
    ensures Schedule(ts, k) == Passes(ts, k, d) + Schedule(LevelAt(ts, d), k + d)
  {
    PrependPass(ts, k, d, Schedule(LevelAt(Kids(ts), d - 1), k + d));
  }

  /** So the whole run is exactly as many passes as the forest is deep. */
  lemma PassCount(ts: seq<Tree>)
    ensures Schedule(ts, 0) == Passes(ts, 0, Height(ts))
  {
    FirstPasses(ts, 0, Height(ts));
    LevelHeight(ts, Height(ts));
    HeightZero(LevelAt(ts, Height(ts)));
  }

  lemma HeightZero(ts: seq<Tree>)
    requires Height(ts) == 0
    ensures ts == []
  {
  }

  lemma Associative<T>(a: seq<T>, b: seq<T>, c: seq<T>)
    ensures a + (b + c) == a + b + c
  {
  }

  lemma {:induction false} LevelStep(ts: seq<Tree>, d: nat)
    ensures LevelAt(ts, d + 1) == Kids(LevelAt(ts, d))
    decreases d
  {
    if d > 0 { LevelStep(Kids(ts), d - 1); }
  }

  // ----- every item runs once, in creation order -----

  /** All nodes of a forest, each parent followed by its descendants. */
  function Nodes(ts: seq<Tree>): seq<Tree> {
    if ts == [] then [] else [ts[0]] + Nodes(ts[0].kids) + Nodes(ts[1..])
  }

  function Own(task: Task): seq<Tree> {
    if task.Scope? then [task.t] else []
  }

  function ScopesIn(tasks: seq<Task>): seq<Tree> {
    if tasks == [] then [] else Own(tasks[0]) + ScopesIn(tasks[1..])
  }

  lemma {:induction false} ScopesInAppend(a: seq<Task>, b: seq<Task>)
    ensures ScopesIn(a + b) == ScopesIn(a) + ScopesIn(b)
  {
    if a == [] {
      assert a + b == b;
    } else {
      assert (a + b)[1..] == a[1..] + b && (a + b)[0] == a[0];
      ScopesInAppend(a[1..], b);
      assert Own(a[0]) + (ScopesIn(a[1..]) + ScopesIn(b)) == Own(a[0]) + ScopesIn(a[1..]) + ScopesIn(b);
    }
  }

  lemma {:induction false} ScopesInScopes(ts: seq<Tree>)
    ensures ScopesIn(Scopes(ts)) == ts
  {
    if ts != [] {
      assert Scopes(ts)[1..] == Scopes(ts[1..]);
      ScopesInScopes(ts[1..]);
    }
  }

  lemma SegmentScopes(level: seq<Tree>, k: nat)
    ensures ScopesIn(Segment(level, k)) == level
  {
    ScopesInScopes(level);
    NoScopesIn(Segment(level, k)[|level|..]);
    assert Segment(level, k) == Scopes(level) + Segment(level, k)[|level|..];
    ScopesInAppend(Scopes(level), Segment(level, k)[|level|..]);
  }

  lemma {:induction false} NoScopesIn(tasks: seq<Task>)
    requires forall i | 0 <= i < |tasks| :: !tasks[i].Scope?
    ensures ScopesIn(tasks) == []
  {
    if tasks != [] { NoScopesIn(tasks[1..]); }
  }

  lemma {:induction false} NodesAppend(a: seq<Tree>, b: seq<Tree>)
    ensures Nodes(a + b) == Nodes(a) + Nodes(b)
  {
    if a == [] {
      assert a + b == b;
    } else {
      assert (a + b)[1..] == a[1..] + b;
      NodesAppend(a[1..], b);
    }
  }

  lemma JoinBags(t: Tree, below: seq<Tree>, others: seq<Tree>, rest: seq<Tree>, lower: seq<Tree>)
    requires multiset(others) == multiset(rest) + multiset(lower)
    ensures multiset([t] + below + others) == multiset([t] + rest) + multiset(below + lower)
  {
  }

  /** A forest is its top level and what that level queues. */
  lemma {:induction false} NodesByLevel(ts: seq<Tree>)
    ensures multiset(Nodes(ts)) == multiset(ts) + multiset(Nodes(Kids(ts)))
  {
    if ts != [] {
      var rest := ts[1..];
      NodesByLevel(rest);
      NodesAppend(ts[0].kids, Kids(rest));
      assert ts == [ts[0]] + rest;
      JoinBags(ts[0], Nodes(ts[0].kids), Nodes(rest), rest, Nodes(Kids(rest)));
    }
  }

  /** Every scope of the forest is elaborated, as often as it occurs. */
  lemma {:induction false} EveryScopeOnce(ts: seq<Tree>, k: nat)
    ensures multiset(ScopesIn(Schedule(ts, k))) == multiset(Nodes(ts))
    decreases Height(ts)
  {
    if ts != [] {
      KidsHeight(ts);
      EveryScopeOnce(Kids(ts), k + 1);
      ScopesInAppend(Segment(ts, k), Schedule(Kids(ts), k + 1));
      SegmentScopes(ts, k);
      NodesByLevel(ts);
    }
  }

  // ----- the loop -----

  /** What running a sequence of tasks queues. */
  function Queues(task: Task): seq<Tree> {
    if task.Scope? then task.t.kids else []
  }

  function Spawned(tasks: seq<Task>): seq<Tree> {
    if tasks == [] then [] else Queues(tasks[0]) + Spawned(tasks[1..])
  }

  lemma {:induction false} SpawnedByScopes(ts: seq<Tree>, rest: seq<Task>)
    requires forall i | 0 <= i < |rest| :: !rest[i].Scope?
    ensures Spawned(Scopes(ts) + rest) == Kids(ts)
    decreases |ts| + |rest|
  {
    var all := Scopes(ts) + rest;
    if ts != [] {
      assert all[1..] == Scopes(ts[1..]) + rest;
      SpawnedByScopes(ts[1..], rest);
    } else if rest != [] {
      assert all[1..] == Scopes(ts) + rest[1..];
      SpawnedByScopes(ts, rest[1..]);
    } else {
      assert all == [];
    }
  }

  lemma SegmentSpawns(level: seq<Tree>, k: nat)
    requires level != []
    ensures Spawned(Segment(level, k)) == Kids(level)
  {
    var rest := (if k == 0 then [] else [LaterDefparams(k - 1)]) + [TopDefparams(k)];
    assert Segment(level, k) == Scopes(level) + rest;
    SpawnedByScopes(level, rest);
  }

  lemma QueueStep(queued: seq<Tree>, tasks: seq<Task>)
    requires tasks != []
    ensures queued + Queues(tasks[0]) + Spawned(tasks[1..]) == queued + Spawned(tasks)
    ensures Scopes(queued + Queues(tasks[0])) == Scopes(queued) + Scopes(Queues(tasks[0]))
  {
    Associative(queued, Queues(tasks[0]), Spawned(tasks[1..]));
  }

  class Design {
    var elaborationWorkList: seq<Task>
    /** What has run, and what was queued, in order. */
    var log: seq<Task>
    ghost var created: seq<Tree>

    constructor ()
      ensures elaborationWorkList == [] && log == [] && created == []
    {
      elaborationWorkList := [];
      log := [];
      created := [];
    }

    /** Run one item: a scope queues its scopes. */
    method Run(task: Task)
      modifies this
      ensures log == old(log) + [task]
      ensures elaborationWorkList == old(elaborationWorkList) + Scopes(Queues(task))
      ensures created == old(created) + Queues(task)
    {
      log := log + [task];
      if task.Scope? {
        elaborationWorkList := elaborationWorkList + Scopes(task.t.kids);
        created := created + task.t.kids;
      }
    }

    /** Move the whole queue to a temporary one. */
    method Transfer() returns (curQueue: seq<Task>)
      modifies this
      ensures curQueue == old(elaborationWorkList) && elaborationWorkList == []
      ensures log == old(log) && created == old(created)
    {
      curQueue := [];
      while elaborationWorkList != []
        invariant curQueue + elaborationWorkList == old(elaborationWorkList)
        invariant log == old(log) && created == old(created)
        decreases |elaborationWorkList|
      {
        curQueue := curQueue + [elaborationWorkList[0]];
        elaborationWorkList := elaborationWorkList[1..];
      }
    }

    method RunQueue(tasks: seq<Task>)
      requires elaborationWorkList == []
      modifies this
      ensures log == old(log) + tasks && elaborationWorkList == Scopes(Spawned(tasks))
      ensures created == old(created) + Spawned(tasks)
    {
      var curQueue := tasks;
      ghost var queued: seq<Tree> := [];
      while curQueue != []
        invariant log + curQueue == old(log) + tasks
        invariant queued + Spawned(curQueue) == Spawned(tasks)
        invariant elaborationWorkList == Scopes(queued) && created == old(created) + queued
        decreases |curQueue|
      {
        var tmp := curQueue[0];
        QueueStep(queued, curQueue);
        ghost var before := log;
        Associative(before, [tmp], curQueue[1..]);
        assert curQueue == [tmp] + curQueue[1..];
        curQueue := curQueue[1..];
        Run(tmp);
        queued := queued + Queues(tmp);
      }
    }

    /** The whole elaboration: the log is the schedule of the roots, the scopes ran in the order they
        were created, and the loop ends. */
    method Elaborate(roots: seq<Tree>)
      requires elaborationWorkList == [] && log == [] && created == []
      modifies this
      ensures elaborationWorkList == [] && log == Schedule(roots, 0)
      ensures ScopesIn(log) == created
    {
      elaborationWorkList := Scopes(roots);
      created := roots;
      ghost var level := roots;
      var k := 0;
      assert Scopes(roots) == Queue(roots, 0);
      while elaborationWorkList != []
        invariant elaborationWorkList == Queue(level, k)
        invariant log + Schedule(level, k) == Schedule(roots, 0)
        invariant created == ScopesIn(log) + level
        decreases Height(level)
      {
        elaborationWorkList := elaborationWorkList + [TopDefparams(k)];
        ghost var before := log;
        assert elaborationWorkList == Segment(level, k);
        var curQueue := Transfer();
        RunQueue(curQueue);
        PassEffect(level, k, before);
        if elaborationWorkList != [] {
          elaborationWorkList := elaborationWorkList + [LaterDefparams(k)];
        }
        level, k := Kids(level), k + 1;
      }
    }
  }

  /** What one pass does to the log and the creation order. */
  lemma PassEffect(level: seq<Tree>, k: nat, log: seq<Task>)
    requires level != []
    ensures Spawned(Segment(level, k)) == Kids(level)
    ensures ScopesIn(log + Segment(level, k)) == ScopesIn(log) + level
    ensures Height(Kids(level)) < Height(level)
    ensures log + Schedule(level, k) == log + Segment(level, k) + Schedule(Kids(level), k + 1)
  {
    SegmentSpawns(level, k);
    ScopesInAppend(log, Segment(level, k));
    SegmentScopes(level, k);
    KidsHeight(level);
    Associative(log, Segment(level, k), Schedule(Kids(level), k + 1));
  }
}
