/** The repository wired to the in-memory FakeTasksRemoteDataSource in the
    place of its local data source. The program itself never makes this
    wiring; the model chooses it to give the repository a concrete store.
    Each operation sends the repository's local calls to the fake, so what
    the repository was given as "the local source's answer" is now the
    fake's actual answer. What this buys is the invariant that an existing
    cache never holds a task the store does not hold. */
module FakeBacked {
  import opened Tasks
  import opened Sorting
  import opened Repository
  import opened FakeDataSource
  import GetTasksUseCase

  /** Every cached entry is also in the store, with the same task. */
  ghost predicate CacheWithinStore(cache: Option<map<string, Task>>, store: map<string, Task>)
  {
    cache.Some? ==> forall k :: k in cache.value ==> k in store && store[k] == cache.value[k]
  }

  /** Refilling from the fake's listing rebuilds the fake's own map. */
  lemma ListingRebuildsStore(keys: seq<string>, tasks: map<string, Task>)
    requires Distinct(keys) && KeyedById(tasks)
    requires forall k :: k in keys <==> k in tasks
    ensures ToMap(InOrder(keys, tasks)) == tasks
  {
    var m := ToMap(InOrder(keys, tasks));
    StoredAreRebuilt(keys, tasks);
    RebuiltAreStored(keys, tasks);
    assert m.Keys == tasks.Keys;
  }

  lemma StoredAreRebuilt(keys: seq<string>, tasks: map<string, Task>)
    requires Distinct(keys) && KeyedById(tasks)
    requires forall k :: k in keys <==> k in tasks
    ensures forall k :: k in tasks ==> k in ToMap(InOrder(keys, tasks)) && ToMap(InOrder(keys, tasks))[k] == tasks[k]
  {
    var listed := InOrder(keys, tasks);
    ListingExactlyOnce(keys, tasks);
    ToMapHoldsEach(listed);
    forall k | k in tasks ensures k in ToMap(listed) && ToMap(listed)[k] == tasks[k] {
      var i :| 0 <= i < |keys| && keys[i] == k;
      InOrderAt(keys, tasks, i);
    }
  }

  lemma RebuiltAreStored(keys: seq<string>, tasks: map<string, Task>)
    requires KeyedById(tasks)
    requires forall k :: k in keys ==> k in tasks
    ensures forall k :: k in ToMap(InOrder(keys, tasks)) ==> k in tasks
  {
    var listed := InOrder(keys, tasks);
    ToMapValuesFrom(listed);
    forall k | k in ToMap(listed) ensures k in tasks {
      var i :| 0 <= i < |listed| && listed[i] == ToMap(listed)[k];
      InOrderAt(keys, tasks, i);
    }
  }

  /** A one-entry cache is listed as that one task. */
  lemma SingleEntryListing(listed: seq<Task>, task: Task)
    requires ListsByDate(listed, map[task.id := task])
    ensures listed == [task]
  {
    assert map[task.id := task].Values == {task};
    assert listed[0] in listed;
  }

  class FakeBackedRepository {
    const repository: LocalTasksRepository
    const local: FakeTasksRemoteDataSource

    ghost predicate Valid()
      reads this, repository, local
    {
      && repository.Valid()
      && local.Valid()
      && CacheWithinStore(repository.cachedTasks, local.tasks)
    }

    constructor ()
      ensures Valid() && fresh(repository) && fresh(local)
      ensures repository.cachedTasks == None && local.tasks == map[]
    {
      repository := new LocalTasksRepository();
      local := new FakeTasksRemoteDataSource();
    }

    /** `getTasks(forceUpdate)` against the fake. The fake never fails, so
        the answer is always a success: the cache sorted by date if it
        exists, and then after a forced or first read the cache is exactly
        the store; an absent cache remains only over an empty store. */
    method GetTasks(forceUpdate: bool) returns (r: Result<seq<Task>>)
      requires Valid()
      modifies repository
      ensures Valid() && unchanged(local)
      ensures r.Success?
      ensures repository.cachedTasks.Some? ==> ListsByDate(r.data, repository.cachedTasks.value)
      ensures repository.cachedTasks.None? ==> r.data == [] && local.tasks == map[]
      ensures forceUpdate || old(repository.cachedTasks).None? ==>
                repository.cachedTasks.Some? ==> repository.cachedTasks.value == local.tasks
      ensures !forceUpdate && old(repository.cachedTasks).Some? ==>
                repository.cachedTasks == old(repository.cachedTasks) && repository.issued == old(repository.issued)
      ensures forceUpdate || old(repository.cachedTasks).None? ==>
                repository.issued == old(repository.issued) + [GetTasksCall]
    {
      var answer := local.GetTasks();
      ListingRebuildsStore(local.keys, local.tasks);
      r := repository.GetTasks(forceUpdate, answer);
      if local.tasks == map[] {
        assert local.Listing() == [];
      }
    }

    /** `getTask(taskId, forceUpdate)` against the fake: since the cache
        agrees with the store, the answer is the stored task or the
        repository's fixed error, whichever path is taken. */
    method GetTask(taskId: string, forceUpdate: bool) returns (r: Result<Task>)
      requires Valid()
      modifies repository
      ensures Valid() && unchanged(local)
      ensures taskId in local.tasks ==> r == Success(local.tasks[taskId])
      ensures taskId !in local.tasks ==> r == Error("Error fetching from remote and local")
      // The cache gains (or keeps) the stored task under its id, and nothing else.
      ensures taskId in local.tasks ==>
                repository.cachedTasks == Some(Entries(old(repository.cachedTasks))[taskId := local.tasks[taskId]])
      ensures taskId !in local.tasks ==> repository.cachedTasks == old(repository.cachedTasks)
    {
      var answer := local.GetTask(taskId);
      r := repository.GetTask(taskId, forceUpdate, answer);
      if taskId in local.tasks && !forceUpdate && old(repository.GetTaskWithId(taskId)).Some? {
        var m := old(repository.cachedTasks).value;
        assert m[taskId := local.tasks[taskId]] == m;
      }
    }

    /** `saveTask(task)`: the cache first, then the store. */
    method SaveTask(task: Task)
      requires Valid()
      modifies repository, local
      ensures Valid()
      ensures repository.cachedTasks == Some(Entries(old(repository.cachedTasks))[task.id := task])
      ensures local.tasks == old(local.tasks)[task.id := task]
    {
      repository.SaveTask(task);
      local.SaveTask(task);
    }

    /** `deleteTask(taskId)`: the store first, then the cache. */
    method DeleteTask(taskId: string)
      requires Valid()
      modifies repository, local
      ensures Valid()
      ensures local.tasks == old(local.tasks) - {taskId}
      ensures repository.cachedTasks ==
                if old(repository.cachedTasks).Some? then Some(old(repository.cachedTasks).value - {taskId}) else None
    {
      local.DeleteTask(taskId);
      repository.DeleteTask(taskId);
    }

    /** `deleteAllTasks()`: the store first, then the cache. */
    method DeleteAllTasks()
      requires Valid()
      modifies repository, local
      ensures Valid()
      ensures local.tasks == map[]
      ensures repository.cachedTasks == if old(repository.cachedTasks).Some? then Some(map[]) else None
    {
      local.DeleteAllTasks();
      repository.DeleteAllTasks();
    }

    /** GetTasksUseCase over this repository: `forceUpdate` goes to
        `getTasks` unchanged and the filter then picks from its answer.
        `listed` is the repository's answer: the cache sorted by date. */
    method GetFilteredTasks(forceUpdate: bool, filter: GetTasksUseCase.TasksFilterType)
      returns (r: Result<seq<Task>>, ghost listed: seq<Task>)
      requires Valid()
      modifies repository
      ensures Valid() && unchanged(local)
      ensures forceUpdate || old(repository.cachedTasks).None? ==>
                repository.issued == old(repository.issued) + [GetTasksCall]
      ensures !forceUpdate && old(repository.cachedTasks).Some? ==>
                repository.issued == old(repository.issued)
      ensures repository.cachedTasks.Some? ==> ListsByDate(listed, repository.cachedTasks.value)
      ensures repository.cachedTasks.None? ==> listed == []
      ensures r == Success(GetTasksUseCase.Selected(listed, filter))
      ensures Sorted(r.data, ByDate)
      ensures repository.cachedTasks.Some? ==>
                forall t :: t in r.data <==> t in repository.cachedTasks.value.Values && GetTasksUseCase.Shows(filter, t)
    {
      var tasksResult := GetTasks(forceUpdate);
      listed := tasksResult.data;
      r := GetTasksUseCase.Invoke(tasksResult, filter);
      GetTasksUseCase.SelectedMembers(listed, filter);
      GetTasksUseCase.SelectedAll(listed);
      assert Sorted(listed, ByDate);
      SelectionKeepsOrder(listed, filter, ByDate);
    }
  }

  /** Filtering a sorted list leaves it sorted, since the filter keeps a
      subsequence. */
  lemma SelectionKeepsOrder(s: seq<Task>, filter: GetTasksUseCase.TasksFilterType, key: SortKey)
    requires Sorted(s, key)
    ensures Sorted(GetTasksUseCase.Selected(s, filter), key)
  {
    var sel := GetTasksUseCase.Selected(s, filter);
    var idx := GetTasksUseCase.SelectedIsSubsequence(s, filter);
    forall i, j | 0 <= i < j < |sel| ensures Le(sel[i], sel[j], key) {
      assert idx[i] < idx[j];
    }
  }

  /** Saving a task into a fresh repository and then reading without a
      forced refresh gives a one-element list holding that task. */
  method SaveThenList(task: Task) returns (r: Result<seq<Task>>)
    ensures r == Success([task])
  {
    var app := new FakeBackedRepository();
    app.SaveTask(task);
    r := app.GetTasks(false);
    SingleEntryListing(r.data, task);
  }

  /** After deleting everything, an unforced read is an empty success,
      whether or not the cache had been created. */
  method DeleteAllThenList(task: Task, created: bool) returns (r: Result<seq<Task>>)
    ensures r == Success([])
  {
    var app := new FakeBackedRepository();
    app.SaveTask(task);
    if !created {
      // Start over with a repository that has never cached anything and a
      // store that already holds the task.
      app := new FakeBackedRepository();
      app.local.SaveTask(task);
    }
    app.DeleteAllTasks();
    r := app.GetTasks(false);
  }

  /** A read by id on a repository whose cache was never created makes a
      one-entry cache; a later unforced list read answers from that cache
      alone, though the store holds a second task. */
  method PartialCacheAfterGetTask(first: Task, second: Task) returns (byId: Result<Task>, listed: Result<seq<Task>>)
    requires first.id != second.id
    ensures byId == Success(first)
    ensures listed == Success([first])
  {
    var app := new FakeBackedRepository();
    app.local.SaveTask(first);
    app.local.SaveTask(second);
    byId := app.GetTask(first.id, false);
    listed := app.GetTasks(false);
    assert app.repository.cachedTasks == Some(map[first.id := first]);
    SingleEntryListing(listed.data, first);
  }
}
