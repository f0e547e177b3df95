/** LocalTasksRepository: an optional in-memory cache from task id to task in
    front of the local data source, with its read, refresh and invalidation
    policy. Each suspend function is one atomic step. The local source is
    not part of this module: its answers to the fetches are parameters, and
    the ghost log `issued` records every call the repository sends it. */
module Repository {
  import opened Tasks
  import opened Sorting

  /** A call to the local TasksDataSource. */
  datatype SourceCall =
    | GetTasksCall
    | GetTaskCall(taskId: string)
    | SaveTaskCall(task: Task)
    | DeleteTaskCall(taskId: string)
    | DeleteAllTasksCall

  /** The map that putting each task of `s` under its id, in order, leaves in
      an empty map. */
  function ToMap(s: seq<Task>): (m: map<string, Task>)
    ensures KeyedById(m)
    ensures forall i :: 0 <= i < |s| ==> s[i].id in m
  {
    if s == [] then map[]
    else
      var init, last := s[..|s| - 1], s[|s| - 1];
      assert s == init + [last];
      ToMap(init)[last.id := last]
  }

  /** The entries of a cache; an absent cache has none. */
  function Entries(cache: Option<map<string, Task>>): map<string, Task>
  {
    if cache.Some? then cache.value else map[]
  }

  /** What `refreshCache(tasks)` leaves: a present cache is cleared and each
      task is put under its id; an absent cache is created by the first put,
      so it stays absent when there is nothing to put. */
  function Refreshed(cache: Option<map<string, Task>>, tasks: seq<Task>): Option<map<string, Task>>
  {
    if cache.None? && tasks == [] then None else Some(ToMap(tasks))
  }

  /** `listed` is the cache's values sorted by date ascending, each entry
      once; tasks with equal dates may come in any order. */
  ghost predicate ListsByDate(listed: seq<Task>, m: map<string, Task>)
  {
    && Sorted(listed, ByDate)
    && |listed| == |m|
    && (forall t :: t in listed <==> t in m.Values)
  }

  /** One more task of the list puts it under its id. */
  lemma ToMapSnoc(s: seq<Task>, i: nat)
    requires i < |s|
    ensures ToMap(s[..i + 1]) == ToMap(s[..i])[s[i].id := s[i]]
  {
    assert s[..i + 1][..i] == s[..i];
  }

  /** Last write wins: under id `k` the map holds the last task of `s` with
      that id, and it holds `k` only if some task of `s` has it. */
  lemma {:induction false} ToMapLastWriteWins(s: seq<Task>, k: string)
    ensures k in ToMap(s) <==> WithId(s, k) != []
    ensures k in ToMap(s) ==> ToMap(s)[k] == WithId(s, k)[|WithId(s, k)| - 1]
  {
    if s != [] {
      var init, last := s[..|s| - 1], s[|s| - 1];
      ToMapLastWriteWins(init, k);
      assert s == init + [last];
      WithIdConcat(init, [last], k);
      WithIdCons(last, [], k);
      assert [last] + [] == [last];
      assert ToMap(s) == ToMap(init)[last.id := last];
      if last.id == k {
        assert WithId(s, k) == WithId(init, k) + [last];
      } else {
        assert WithId(s, k) == WithId(init, k);
      }
    }
  }

  /** Iterating the id-sorted list, as `refreshCache` does, leaves the same
      map as iterating the list as fetched: the sort is stable, so among
      tasks that share an id the same one is put last. */
  lemma IdOrderIrrelevant(s: seq<Task>)
    ensures ToMap(SortedBy(s, ById)) == ToMap(s)
  {
    var a, b := ToMap(SortedBy(s, ById)), ToMap(s);
    forall k
      ensures (k in a <==> k in b) && (k in b ==> a[k] == b[k])
    {
      SortedByIdStable(s, k);
      ToMapLastWriteWins(s, k);
      ToMapLastWriteWins(SortedBy(s, ById), k);
    }
    assert a.Keys == b.Keys;
  }

  /** Every value of the map is one of the listed tasks. */
  lemma {:induction false} ToMapValuesFrom(s: seq<Task>)
    ensures forall k :: k in ToMap(s) ==> ToMap(s)[k] in s
  {
    if s != [] {
      var init, last := s[..|s| - 1], s[|s| - 1];
      ToMapValuesFrom(init);
      assert s == init + [last];
      forall k | k in ToMap(s) ensures ToMap(s)[k] in s {
        if k != last.id {
          assert ToMap(s)[k] == ToMap(init)[k];
        }
      }
    }
  }

  /** Dropping the last task keeps the ids distinct. */
  lemma DistinctIdsInit(s: seq<Task>)
    requires DistinctIds(s) && s != []
    ensures DistinctIds(s[..|s| - 1])
  {
    var init := s[..|s| - 1];
    forall i, j | 0 <= i < j < |init| ensures init[i].id != init[j].id {
      assert init[i] == s[i] && init[j] == s[j];
    }
  }

  /** An id no task of `s` has is not a key of its map. */
  lemma ToMapOnlyListedIds(s: seq<Task>, id: string)
    requires forall i :: 0 <= i < |s| ==> s[i].id != id
    ensures id !in ToMap(s)
  {
    ToMapValuesFrom(s);
    var m := ToMap(s);
    forall k | k in m ensures k != id {
      var i :| 0 <= i < |s| && s[i] == m[k];
      assert s[i].id == k;
    }
  }

  /** A fetched list without repeated ids lands in the map one entry per
      task, each under its own id. */
  lemma {:induction false} ToMapHoldsEach(s: seq<Task>)
    requires DistinctIds(s)
    ensures |ToMap(s)| == |s|
    ensures forall i :: 0 <= i < |s| ==> ToMap(s)[s[i].id] == s[i]
  {
    if s != [] {
      var n := |s| - 1;
      var init, last := s[..n], s[n];
      DistinctIdsInit(s);
      ToMapHoldsEach(init);
      var m := ToMap(init);
      assert forall i :: 0 <= i < |init| ==> init[i].id != last.id;
      ToMapOnlyListedIds(init, last.id);
      assert ToMap(s) == m[last.id := last];
      forall i | 0 <= i < n ensures ToMap(s)[s[i].id] == s[i] {
        assert init[i] == s[i];
      }
    }
  }

  /** After a successful fetch the cache exists unless it was absent and the
      fetch was empty; when it exists it holds exactly the fetched tasks, one
      entry per id, and nothing of what it held before. */
  lemma RefreshedHoldsExactly(cache: Option<map<string, Task>>, tasks: seq<Task>)
    requires DistinctIds(tasks)
    ensures Refreshed(cache, tasks).None? <==> cache.None? && tasks == []
    ensures Refreshed(cache, tasks).Some? ==>
              var m := Refreshed(cache, tasks).value;
              && |m| == |tasks|
              && (forall i :: 0 <= i < |tasks| ==> tasks[i].id in m && m[tasks[i].id] == tasks[i])
              && (forall k :: k in m ==> m[k] in tasks)
  {
    ToMapHoldsEach(tasks);
    ToMapValuesFrom(tasks);
  }

  /** The values of a map, in an order left unspecified. */
  method ValuesOf(m: map<string, Task>) returns (values: seq<Task>)
    ensures |values| == |m.Values|
    ensures forall t :: t in values <==> t in m.Values
  {
    values := [];
    var rest := m.Values;
    while rest != {}
      invariant rest <= m.Values
      invariant |values| + |rest| == |m.Values|
      invariant forall t :: t in values <==> t in m.Values && t !in rest
      decreases |rest|
    {
      var t :| t in rest;
      values := values + [t];
      rest := rest - {t};
    }
  }

  class LocalTasksRepository {
    /** cachedTasks: None until the cache is first created. */
    var cachedTasks: Option<map<string, Task>>
    /** The calls sent to the local data source so far, oldest first. */
    ghost var issued: seq<SourceCall>

    ghost predicate Valid()
      reads this
    {
      cachedTasks.Some? ==> KeyedById(cachedTasks.value)
    }

    constructor ()
      ensures Valid() && cachedTasks == None && issued == []
    {
      cachedTasks := None;
      issued := [];
    }

    /** `getTasks(forceUpdate)`. `localTasks` is what the local source's
        `getTasks()` answers if it is asked. */
    method GetTasks(forceUpdate: bool, localTasks: Result<seq<Task>>) returns (r: Result<seq<Task>>)
      requires Valid()
      modifies this
      ensures Valid()
      // An existing cache answers an unforced read; the source is not asked.
      ensures !forceUpdate && old(cachedTasks).Some? ==>
                && cachedTasks == old(cachedTasks) && issued == old(issued)
                && r.Success? && ListsByDate(r.data, cachedTasks.value)
      // Otherwise the local source is asked once.
      ensures forceUpdate || old(cachedTasks).None? ==> issued == old(issued) + [GetTasksCall]
      // A successful fetch refills the cache and always gives a success.
      ensures (forceUpdate || old(cachedTasks).None?) && localTasks.Success? ==>
                && cachedTasks == Refreshed(old(cachedTasks), localTasks.data)
                && r.Success?
                && (cachedTasks.Some? ==> ListsByDate(r.data, cachedTasks.value))
                && (cachedTasks.None? ==> r.data == [])
      // A failed fetch leaves the cache alone; its error message is dropped.
      ensures (forceUpdate || old(cachedTasks).None?) && localTasks.Error? ==>
                && cachedTasks == old(cachedTasks)
                && (cachedTasks.Some? ==> r.Success? && ListsByDate(r.data, cachedTasks.value))
                && (cachedTasks.None? ==> r == Error("Illegal state"))
      // A confirmed-empty fetch is an empty success, never "Illegal state".
      ensures (forceUpdate || old(cachedTasks).None?) && localTasks == Success([]) ==> r == Success([])
    {
      if !forceUpdate {
        if cachedTasks.Some? {
          var listed := SortedCacheValues();
          return Success(listed);
        }
      }

      var newTasks := FetchTasksFromLocal(localTasks);

      if newTasks.Success? {
        RefreshCache(newTasks.data);
      }

      if cachedTasks.Some? {
        var listed := SortedCacheValues();
        return Success(listed);
      }

      if newTasks.Success? {
        if newTasks.data == [] {
          return Success(newTasks.data);
        }
      }

      return Error("Illegal state");
    }

    /** `cachedTasks.values.sortedBy { it.date }`. */
    method SortedCacheValues() returns (listed: seq<Task>)
      requires Valid() && cachedTasks.Some?
      ensures ListsByDate(listed, cachedTasks.value)
    {
      var values := ValuesOf(cachedTasks.value);
      listed := SortedBy(values, ByDate);
      SortedBySorted(values, ByDate);
      KeyedValuesCount(cachedTasks.value);
      assert |multiset(listed)| == |multiset(values)|;
      assert forall t :: t in listed <==> t in multiset(values);
    }

    /** `fetchTasksFromLocal`: the source's success as it is, any failure
        replaced by a fixed error. */
    method FetchTasksFromLocal(localTasks: Result<seq<Task>>) returns (r: Result<seq<Task>>)
      modifies this`issued
      ensures issued == old(issued) + [GetTasksCall]
      ensures localTasks.Success? ==> r == localTasks
      ensures localTasks.Error? ==> r == Error("Error fetching from  local")
    {
      issued := issued + [GetTasksCall];
      if localTasks.Success? {
        return localTasks;
      }
      return Error("Error fetching from  local");
    }

    /** `getTask(taskId, forceUpdate)`. `localTask` is what the local
        source's `getTask(taskId)` answers if it is asked. */
    method GetTask(taskId: string, forceUpdate: bool, localTask: Result<Task>) returns (r: Result<Task>)
      requires Valid()
      modifies this
      ensures Valid()
      // A cached id answers an unforced read; the source is not asked.
      ensures !forceUpdate && old(GetTaskWithId(taskId)).Some? ==>
                && r == Success(old(cachedTasks).value[taskId]) && r.data.id == taskId
                && cachedTasks == old(cachedTasks) && issued == old(issued)
      // Otherwise the local source is asked once for that id.
      ensures forceUpdate || old(GetTaskWithId(taskId)).None? ==>
                && issued == old(issued) + [GetTaskCall(taskId)]
                && (localTask.Success? ==>
                      && r == localTask
                      && cachedTasks == Some(Entries(old(cachedTasks))[localTask.data.id := localTask.data]))
                && (localTask.Error? ==>
                      && r == Error("Error fetching from remote and local")
                      && cachedTasks == old(cachedTasks))
    {
      if !forceUpdate {
        var cached := GetTaskWithId(taskId);
        if cached.Some? {
          return Success(cached.value);
        }
      }

      var newTask := FetchTaskFromLocal(taskId, localTask);

      if newTask.Success? {
        var _ := CacheTask(newTask.data);
      }

      return newTask;
    }

    /** `fetchTaskFromLocal(taskId)`. */
    method FetchTaskFromLocal(taskId: string, localTask: Result<Task>) returns (r: Result<Task>)
      modifies this`issued
      ensures issued == old(issued) + [GetTaskCall(taskId)]
      ensures localTask.Success? ==> r == localTask
      ensures localTask.Error? ==> r == Error("Error fetching from remote and local")
    {
      issued := issued + [GetTaskCall(taskId)];
      if localTask.Success? {
        return localTask;
      }
      return Error("Error fetching from remote and local");
    }

    /** `saveTask(task)`: the cache gets the task first (created if absent),
        then the local save is sent with the cached copy. */
    method SaveTask(task: Task)
      requires Valid()
      modifies this
      ensures Valid()
      ensures cachedTasks == Some(Entries(old(cachedTasks))[task.id := task])
      ensures issued == old(issued) + [SaveTaskCall(task)]
    {
      CacheAndPerform(task, (cached: Task) => [SaveTaskCall(cached)]);
    }

    /** `deleteAllTasks()`: the local source is told to delete everything;
        an existing cache is emptied, an absent one stays absent. */
    method DeleteAllTasks()
      requires Valid()
      modifies this
      ensures Valid()
      ensures cachedTasks == if old(cachedTasks).Some? then Some(map[]) else None
      ensures issued == old(issued) + [DeleteAllTasksCall]
    {
      issued := issued + [DeleteAllTasksCall];
      if cachedTasks.Some? {
        cachedTasks := Some(map[]);
      }
    }

    /** `deleteTask(taskId)`: the local source is told to delete the id; only
        that id leaves an existing cache, and an absent cache stays absent. */
    method DeleteTask(taskId: string)
      requires Valid()
      modifies this
      ensures Valid()
      ensures cachedTasks == if old(cachedTasks).Some? then Some(old(cachedTasks).value - {taskId}) else None
      ensures issued == old(issued) + [DeleteTaskCall(taskId)]
    {
      issued := issued + [DeleteTaskCall(taskId)];
      if cachedTasks.Some? {
        cachedTasks := Some(cachedTasks.value - {taskId});
      }
    }

    /** `refreshCache(tasks)`: clear a present cache, then put every task in
        id order. */
    method RefreshCache(tasks: seq<Task>)
      requires Valid()
      modifies this
      ensures Valid()
      ensures cachedTasks == Refreshed(old(cachedTasks), tasks)
      ensures issued == old(issued)
    {
      if cachedTasks.Some? {
        cachedTasks := Some(map[]);
      }
      var sorted := SortedBy(tasks, ById);
      for i := 0 to |sorted|
        invariant cachedTasks == if old(cachedTasks).None? && i == 0 then None else Some(ToMap(sorted[..i]))
        invariant issued == old(issued)
      {
        ToMapSnoc(sorted, i);
        CacheAndPerform(sorted[i], (cached: Task) => []);
      }
      assert sorted[..|sorted|] == sorted;
      SortedByLength(tasks, ById);
      IdOrderIrrelevant(tasks);
    }

    /** `getTaskWithId(id)`: the cached task, if the cache exists and has it. */
    function GetTaskWithId(id: string): (r: Option<Task>)
      reads this
      requires Valid()
      ensures r.Some? <==> cachedTasks.Some? && id in cachedTasks.value
      ensures r.Some? ==> r.value == cachedTasks.value[id] && r.value.id == id
    {
      if cachedTasks.Some? && id in cachedTasks.value then Some(cachedTasks.value[id]) else None
    }

    /** `cacheTask(task)`: create the cache if absent and put a copy of the
        task under its id; the copy is returned. */
    method CacheTask(task: Task) returns (cachedTask: Task)
      modifies this`cachedTasks
      ensures cachedTask == task
      ensures cachedTasks == Some(Entries(old(cachedTasks))[task.id := task])
    {
      cachedTask := Task(task.id, task.date, task.title, task.amount);
      if cachedTasks.None? {
        cachedTasks := Some(map[]);
      }
      cachedTasks := Some(cachedTasks.value[cachedTask.id := cachedTask]);
    }

    /** `cacheAndPerform(task, perform)`: cache the task, then run `perform`
        on the cached copy; `perform` is given by the calls it sends. */
    method CacheAndPerform(task: Task, ghost perform: Task -> seq<SourceCall>)
      modifies this
      ensures cachedTasks == Some(Entries(old(cachedTasks))[task.id := task])
      ensures issued == old(issued) + perform(task)
    {
      var cachedTask := CacheTask(task);
      issued := issued + perform(cachedTask);
    }
  }
}
