/** FakeTasksRemoteDataSource: the in-memory data source of the mock build.
    Its store is a LinkedHashMap from task id to task, kept here as the key
    order together with the entries, so listing follows first insertion. */
module FakeDataSource {
  import opened Tasks

  /** No key occurs twice. */
  ghost predicate Distinct(keys: seq<string>)
  {
    forall i, j :: 0 <= i < j < |keys| ==> keys[i] != keys[j]
  }

  /** The key order after LinkedHashMap.remove(id): the other keys, in order. */
  function Without(keys: seq<string>, id: string): (r: seq<string>)
    ensures forall k :: k in r <==> k in keys && k != id
  {
    if keys == [] then []
    else (if keys[0] == id then [] else [keys[0]]) + Without(keys[1..], id)
  }

  /** Removing a key keeps the other keys distinct. */
  lemma {:induction false} WithoutDistinct(keys: seq<string>, id: string)
    requires Distinct(keys)
    ensures Distinct(Without(keys, id))
  {
    if keys != [] {
      var rest := keys[1..];
      assert Distinct(rest) by {
        forall i, j | 0 <= i < j < |rest| ensures rest[i] != rest[j] {
          assert rest[i] == keys[i + 1] && rest[j] == keys[j + 1];
        }
      }
      assert keys[0] !in rest by {
        forall j | 0 <= j < |rest| ensures rest[j] != keys[0] {
          assert rest[j] == keys[j + 1];
        }
      }
      WithoutDistinct(rest, id);
      var w := Without(rest, id);
      if keys[0] != id {
        var r := [keys[0]] + w;
        forall i, j | 0 <= i < j < |r| ensures r[i] != r[j] {
          if i == 0 {
            assert r[j] == w[j - 1] && r[j] in w;
          } else {
            assert r[i] == w[i - 1] && r[j] == w[j - 1];
          }
        }
      }
    }
  }

  /** The entries' values in key order: what `values.toList()` gives. */
  function InOrder(keys: seq<string>, tasks: map<string, Task>): (r: seq<Task>)
    requires forall k :: k in keys ==> k in tasks
    ensures |r| == |keys|
  {
    if keys == [] then [] else [tasks[keys[0]]] + InOrder(keys[1..], tasks)
  }

  /** The tasks of `s` whose id is not `id`, in their order. */
  function OtherIds(s: seq<Task>, id: string): seq<Task>
  {
    if s == [] then [] else (if s[0].id == id then [] else [s[0]]) + OtherIds(s[1..], id)
  }

  /** Position `i` of the listing holds the entry of the `i`-th key. */
  lemma {:induction false} InOrderAt(keys: seq<string>, tasks: map<string, Task>, i: nat)
    requires forall k :: k in keys ==> k in tasks
    requires i < |keys|
    ensures InOrder(keys, tasks)[i] == tasks[keys[i]]
  {
    if i > 0 {
      InOrderAt(keys[1..], tasks, i - 1);
    }
  }

  /** Over distinct keys of an id-keyed map that has no other entries, the
      listing holds every stored task exactly once. */
  lemma ListingExactlyOnce(keys: seq<string>, tasks: map<string, Task>)
    requires Distinct(keys) && KeyedById(tasks)
    requires forall k :: k in keys <==> k in tasks
    ensures |InOrder(keys, tasks)| == |tasks|
    ensures forall t :: t in InOrder(keys, tasks) <==> t in tasks.Values
    ensures DistinctIds(InOrder(keys, tasks))
  {
    var r := InOrder(keys, tasks);
    forall i | 0 <= i < |r| ensures r[i] == tasks[keys[i]] && r[i].id == keys[i] {
      InOrderAt(keys, tasks, i);
    }
    forall t | t in tasks.Values ensures t in r {
      var k :| k in tasks && tasks[k] == t;
      var i :| 0 <= i < |keys| && keys[i] == k;
      assert r[i] == t;
    }
    DistinctCount(keys);
    assert (set k | k in keys) == tasks.Keys;
  }

  lemma {:induction false} DistinctCount(keys: seq<string>)
    requires Distinct(keys)
    ensures |set k | k in keys| == |keys|
  {
    if keys != [] {
      var rest := keys[1..];
      DistinctCount(rest);
      assert (set k | k in keys) == (set k | k in rest) + {keys[0]};
      assert keys[0] !in rest by {
        forall j | 0 <= j < |rest| ensures rest[j] != keys[0] {
          assert rest[j] == keys[j + 1];
        }
      }
    }
  }

  /** Saving under a new id appends its task to the listing. */
  lemma {:induction false} SaveNewAppends(keys: seq<string>, tasks: map<string, Task>, task: Task)
    requires forall k :: k in keys ==> k in tasks
    requires task.id !in keys
    ensures InOrder(keys + [task.id], tasks[task.id := task]) == InOrder(keys, tasks) + [task]
  {
    if keys != [] {
      assert (keys + [task.id])[1..] == keys[1..] + [task.id];
      SaveNewAppends(keys[1..], tasks, task);
    }
  }

  /** Saving under the id at position `i` replaces that entry in place: the
      listing keeps its order and only position `i` changes. */
  lemma {:induction false} SaveExistingReplaces(keys: seq<string>, tasks: map<string, Task>, task: Task, i: nat)
    requires forall k :: k in keys ==> k in tasks
    requires Distinct(keys)
    requires i < |keys| && keys[i] == task.id
    ensures InOrder(keys, tasks[task.id := task]) == InOrder(keys, tasks)[i := task]
  {
    if i == 0 {
      assert task.id !in keys[1..] by {
        forall j | 0 <= j < |keys| - 1 ensures keys[1..][j] != task.id {
          assert keys[1..][j] == keys[j + 1];
        }
      }
      InOrderUnchanged(keys[1..], tasks, task);
    } else {
      SaveExistingReplaces(keys[1..], tasks, task, i - 1);
    }
  }

  /** An entry whose key is not listed does not affect the listing. */
  lemma {:induction false} InOrderUnchanged(keys: seq<string>, tasks: map<string, Task>, task: Task)
    requires forall k :: k in keys ==> k in tasks
    requires task.id !in keys
    ensures InOrder(keys, tasks[task.id := task]) == InOrder(keys, tasks)
  {
    if keys != [] {
      InOrderUnchanged(keys[1..], tasks, task);
    }
  }

  /** Deleting an id takes exactly its task out of the listing and keeps the
      order of the rest. */
  lemma {:induction false} DeleteKeepsOrder(keys: seq<string>, tasks: map<string, Task>, id: string)
    requires forall k :: k in keys ==> k in tasks
    requires KeyedById(tasks)
    ensures InOrder(Without(keys, id), tasks - {id}) == OtherIds(InOrder(keys, tasks), id)
  {
    if keys != [] {
      var k0, rest := keys[0], keys[1..];
      DeleteKeepsOrder(rest, tasks, id);
      var listed := InOrder(keys, tasks);
      assert listed == [tasks[k0]] + InOrder(rest, tasks);
      assert listed[1..] == InOrder(rest, tasks);
      assert tasks[k0].id == k0;
      var w := Without(rest, id);
      if k0 != id {
        assert OtherIds(listed, id) == [tasks[k0]] + OtherIds(InOrder(rest, tasks), id);
        assert Without(keys, id) == [k0] + w;
        assert ([k0] + w)[1..] == w;
        assert InOrder([k0] + w, tasks - {id}) == [(tasks - {id})[k0]] + InOrder(w, tasks - {id});
      } else {
        assert OtherIds(listed, id) == OtherIds(InOrder(rest, tasks), id);
        assert Without(keys, id) == w;
      }
    }
  }

  class FakeTasksRemoteDataSource {
    /** TASKS_SERVICE_DATA: its key order and its entries. */
    var keys: seq<string>
    var tasks: map<string, Task>

    ghost predicate Valid()
      reads this
    {
      && Distinct(keys)
      && (forall k :: k in keys <==> k in tasks)
      && KeyedById(tasks)
    }

    /** The listing `getTasks` answers with. */
    function Listing(): seq<Task>
      reads this
      requires Valid()
    {
      InOrder(keys, tasks)
    }

    /** The singleton starts with an empty LinkedHashMap. */
    constructor ()
      ensures Valid() && keys == [] && tasks == map[]
    {
      keys, tasks := [], map[];
    }

    /** The stored task, or an error when the id is not stored. */
    method GetTask(taskId: string) returns (r: Result<Task>)
      requires Valid()
      ensures taskId in tasks ==> r == Success(tasks[taskId]) && r.data.id == taskId
      ensures taskId !in tasks ==> r == Error("Could not find task")
    {
      if taskId in tasks {
        return Success(tasks[taskId]);
      }
      return Error("Could not find task");
    }

    /** Always a success listing every stored task once, in insertion order. */
    method GetTasks() returns (r: Result<seq<Task>>)
      requires Valid()
      ensures r == Success(Listing())
      ensures |r.data| == |tasks| && DistinctIds(r.data)
      ensures forall t :: t in r.data <==> t in tasks.Values
    {
      ListingExactlyOnce(keys, tasks);
      return Success(InOrder(keys, tasks));
    }

    /** `TASKS_SERVICE_DATA[task.id] = task`: a new id goes to the end of the
        order, an existing one keeps its place and gets the new task. */
    method SaveTask(task: Task)
      requires Valid()
      modifies this
      ensures Valid()
      ensures tasks == old(tasks)[task.id := task]
      ensures keys == if task.id in old(tasks) then old(keys) else old(keys) + [task.id]
      ensures task.id !in old(tasks) ==> Listing() == old(Listing()) + [task]
      ensures forall i :: 0 <= i < |old(keys)| && old(keys)[i] == task.id ==>
                Listing() == old(Listing())[i := task]
    {
      if task.id in tasks {
        forall i | 0 <= i < |keys| && keys[i] == task.id
          ensures InOrder(keys, tasks[task.id := task]) == InOrder(keys, tasks)[i := task]
        {
          SaveExistingReplaces(keys, tasks, task, i);
        }
        tasks := tasks[task.id := task];
      } else {
        SaveNewAppends(keys, tasks, task);
        keys, tasks := keys + [task.id], tasks[task.id := task];
      }
    }

    /** `TASKS_SERVICE_DATA.remove(taskId)`: only that id goes; a missing id
        changes nothing. */
    method DeleteTask(taskId: string)
      requires Valid()
      modifies this
      ensures Valid()
      ensures tasks == old(tasks) - {taskId}
      ensures keys == Without(old(keys), taskId)
      ensures Listing() == OtherIds(old(Listing()), taskId)
    {
      DeleteKeepsOrder(keys, tasks, taskId);
      WithoutDistinct(keys, taskId);
      keys, tasks := Without(keys, taskId), tasks - {taskId};
    }

    /** `TASKS_SERVICE_DATA.clear()`. */
    method DeleteAllTasks()
      requires Valid()
      modifies this
      ensures Valid() && keys == [] && tasks == map[] && Listing() == []
    {
      keys, tasks := [], map[];
    }
  }

  /** A missing id leaves the store as it was: the key order and the
      listing are unchanged. */
  lemma {:induction false} DeleteMissingIsNoOp(keys: seq<string>, tasks: map<string, Task>, id: string)
    requires forall k :: k in keys ==> k in tasks
    requires KeyedById(tasks)
    requires id !in tasks
    ensures Without(keys, id) == keys
    ensures OtherIds(InOrder(keys, tasks), id) == InOrder(keys, tasks)
  {
    if keys != [] {
      var k0, rest := keys[0], keys[1..];
      DeleteMissingIsNoOp(rest, tasks, id);
      var listed := InOrder(keys, tasks);
      assert listed == [tasks[k0]] + InOrder(rest, tasks);
      assert listed[1..] == InOrder(rest, tasks);
      assert tasks[k0].id == k0 != id;
      assert keys == [k0] + rest;
    }
  }

  /** Upsert then lookup finds the saved task, another save under the same
      id replaces it, and after `deleteAllTasks` the listing is empty and
      every lookup fails. */
  method StoreScenarios(task: Task, other: Task, probe: string)
    returns (saved: Result<Task>, replaced: Result<Task>, afterClear: Result<Task>, listed: Result<seq<Task>>)
    requires other.id == task.id
    ensures saved == Success(task)
    ensures replaced == Success(other)
    ensures afterClear == Error("Could not find task")
    ensures listed == Success([])
  {
    var store := new FakeTasksRemoteDataSource();
    store.SaveTask(task);
    saved := store.GetTask(task.id);
    store.SaveTask(other);
    replaced := store.GetTask(task.id);
    store.DeleteAllTasks();
    afterClear := store.GetTask(probe);
    listed := store.GetTasks();
  }
}
