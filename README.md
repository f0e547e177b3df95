# Task repository cache, sign filter, in-memory store and date converters

This project models the data core of a small Android task-count app, an
offshoot of the Android architecture "todoapp" blueprint. Every task has an
id, a date, a title and a signed amount. Four parts are modelled.

- **`LocalTasksRepository`** holds an optional in-memory cache from task id
  to task, placed in front of the local `TasksDataSource`. It applies a
  fixed policy: reads are answered from the cache, forced reads refresh the
  cache, a save upserts, a delete removes and a delete-all clears. The
  policy separates "cache never created" from "cache empty". The model is
  the class `Repository.LocalTasksRepository`. Its `cachedTasks` field is an
  `Option<map<string, Task>>`, and each suspend function is one atomic
  method. The answers of the local source are method parameters. A ghost
  log `issued` records each call the repository sends to the local source,
  so the contracts can also say when the source is *not* asked.
- **`GetTasksUseCase.invoke`** is the sign filter. ALL returns the
  repository's answer unchanged, DEBIT keeps `amount >= 0` and CREDIT keeps
  `amount < 0`. An error passes through. The loop is modelled as a method
  and proved against a reference selection function. The two copies of the
  use case in the repository are identical, so they are modelled once.
- **`FakeTasksRemoteDataSource`** is the mock build's in-memory store, a
  `LinkedHashMap`. It is modelled as the key order plus the entries, so the
  listing follows first insertion and a re-save keeps its position.
- **`Converters`** is the Room codec between a nullable `Long` and a
  nullable `Date`, where a `Date` stands for its millisecond count. This
  codec is why task dates are integers everywhere else. The two copies are
  identical and are modelled once.

The module `FakeBacked` wires the repository to the fake as its local
source. Each operation passes the fake's actual answer to the repository.
That wiring proves the invariant the repository relies on: an existing cache
never holds a task the store does not hold. It also proves that a forced
read makes the cache equal to the store.

Kotlin's `sortedBy` is modelled as a stable insertion sort
(`Sorting.SortedBy`). The repository sorts by id before it refills the cache.
Because the sort is stable, the refill gives the same map as the fetched
order would (`Repository.IdOrderIrrelevant`). Iteration order of the
`ConcurrentHashMap` is unspecified, so `getTasks` is modelled in two steps.
First the values are taken in an unspecified order (`Repository.ValuesOf`).
Then they are sorted by date. The contract states what survives that
freedom: the answer is sorted by date and lists each cached task exactly
once.

Three behaviours of the code are easy to miss:

- A failed local fetch is not reported as an error when a cache exists. The
  stale cache is returned, sorted, as a success. Only with no cache is the
  answer `Error("Illegal state")`. The local source's own message is dropped.
- `deleteAllTasks` clears an existing cache but leaves an absent cache
  absent. A later unforced `getTasks` then goes back to the local source.
- `getTask` on an absent cache creates a cache holding only that task. A
  later unforced `getTasks` lists that task alone, whatever the store holds
  (`FakeBacked.PartialCacheAfterGetTask`).

## Model

| member | source | states |
|---|---|---|
| Tasks.KeyedValuesCount | app/src/main/java/com/example/android/architecture/blueprints/todoapp/data/source/LocalTasksRepository.kt:42 | a map that stores every task under its own id has exactly as many distinct values as entries |
| Converters.ToDate | app/src/main/java/com/example/android/architecture/blueprints/todoapp/data/source/local/Converters.kt:11 | null maps to null and only null does; a timestamp becomes the date with those milliseconds |
| Converters.ToTimestamp | app/src/main/java/com/github/jim108dev/simple_task_count/data/source/local/Converters.kt:14 | null maps to null and only null does; a date gives back its millisecond count |
| Converters.TimestampRoundTrip | app/src/main/java/com/example/android/architecture/blueprints/todoapp/data/source/local/Converters.kt:11-15 | converting a nullable timestamp to a date and back returns the same timestamp, null included |
| Converters.DateRoundTrip | app/src/main/java/com/github/jim108dev/simple_task_count/data/source/local/Converters.kt:10-14 | converting a nullable date to its timestamp and back returns the same date, null included |
| Sorting.IdLeTotal | app/src/main/java/com/example/android/architecture/blueprints/todoapp/data/source/LocalTasksRepository.kt:137 | any two ids are comparable by the string order |
| Sorting.IdLeTransitive | app/src/main/java/com/example/android/architecture/blueprints/todoapp/data/source/LocalTasksRepository.kt:137 | the string order on ids is transitive |
| Sorting.Insert | app/src/main/java/com/example/android/architecture/blueprints/todoapp/data/source/LocalTasksRepository.kt:59 | inserting into a list adds exactly that element (multiset) |
| Sorting.SortedBy | app/src/main/java/com/example/android/architecture/blueprints/todoapp/data/source/LocalTasksRepository.kt:137 | `sortedBy` returns a permutation of its input (multiset equality) |
| Sorting.SortedByLength | app/src/main/java/com/example/android/architecture/blueprints/todoapp/data/source/LocalTasksRepository.kt:59 | `sortedBy` keeps the length of its input |
| Sorting.InsertSorted | app/src/main/java/com/example/android/architecture/blueprints/todoapp/data/source/LocalTasksRepository.kt:59 | inserting into a sorted list keeps it sorted |
| Sorting.SortedBySorted | app/src/main/java/com/example/android/architecture/blueprints/todoapp/data/source/LocalTasksRepository.kt:50 | the output of `sortedBy` is ascending by the selected key |
| Sorting.InsertByIdStable | app/src/main/java/com/example/android/architecture/blueprints/todoapp/data/source/LocalTasksRepository.kt:137 | inserting by id keeps, for every id, the relative order of the tasks that have it |
| Sorting.SortedByIdStable | app/src/main/java/com/example/android/architecture/blueprints/todoapp/data/source/LocalTasksRepository.kt:137 | `sortedBy { it.id }` is stable: for every id, the tasks with that id come out in input order |
| GetTasksUseCase.Invoke | app/src/main/java/com/example/android/architecture/blueprints/todoapp/domain/GetTasksUseCase.kt:26-44 | an Error result, or any result under ALL, is returned unchanged; otherwise the answer is Success of the reference selection of the input's tasks by the filter |
| GetTasksUseCase.SelectedAll | app/src/main/java/com/github/jim108dev/simple_task_count/domain/GetTasksUseCase.kt:26 | under ALL the selection is the whole list |
| GetTasksUseCase.SelectedMembers | app/src/main/java/com/example/android/architecture/blueprints/todoapp/domain/GetTasksUseCase.kt:31-38 | a task is in the output exactly when it is in the input and the filter shows it: `amount >= 0` for DEBIT and `amount < 0` for CREDIT |
| GetTasksUseCase.SelectedIsSubsequence | app/src/main/java/com/github/jim108dev/simple_task_count/domain/GetTasksUseCase.kt:29-41 | the output is the subsequence of the input at increasing positions, and those positions are exactly the ones the filter shows |
| GetTasksUseCase.DebitCreditCount | app/src/main/java/com/github/jim108dev/simple_task_count/domain/GetTasksUseCase.kt:33-38 | the DEBIT and CREDIT outputs together hold every input task as often as the input does |
| GetTasksUseCase.DebitCreditPartition | app/src/main/java/com/example/android/architecture/blueprints/todoapp/domain/GetTasksUseCase.kt:33-38 | the DEBIT and CREDIT outputs of a list are disjoint, their lengths add up to its length, and together they equal it as a multiset |
| GetTasksUseCase.TestScenarios | app/src/test/java/com/github/jim108dev/simple_task_count/domain/GetTasksUseCaseTest.kt:26-99 | an empty repository gives Success([]), an error stays an Error, and amounts 10, 20 and -5 give 3 tasks under ALL, 2 under DEBIT and 1 under CREDIT |
| FakeDataSource.Without | app/src/mock/java/com/github/jim108dev/simple_task_count/data/FakeTasksRemoteDataSource.kt:47 | after `remove(id)` the key order holds exactly the other keys |
| FakeDataSource.WithoutDistinct | app/src/mock/java/com/github/jim108dev/simple_task_count/data/FakeTasksRemoteDataSource.kt:47 | removing a key keeps the key order free of repeats |
| FakeDataSource.InOrder | app/src/mock/java/com/github/jim108dev/simple_task_count/data/FakeTasksRemoteDataSource.kt:39 | the listing has one entry per key |
| FakeDataSource.ListingExactlyOnce | app/src/mock/java/com/github/jim108dev/simple_task_count/data/FakeTasksRemoteDataSource.kt:38-40 | the listing holds every stored task exactly once: its length is the store's size, its members are the stored tasks, and no id repeats |
| FakeDataSource.SaveNewAppends | app/src/mock/java/com/github/jim108dev/simple_task_count/data/FakeTasksRemoteDataSource.kt:43 | a put under a new id appends its task to the end of the listing |
| FakeDataSource.SaveExistingReplaces | app/src/mock/java/com/github/jim108dev/simple_task_count/data/FakeTasksRemoteDataSource.kt:43 | a put under an existing id replaces that entry in place and keeps the order |
| FakeDataSource.InOrderUnchanged | app/src/mock/java/com/github/jim108dev/simple_task_count/data/FakeTasksRemoteDataSource.kt:43 | an entry whose key is not in the order does not change the listing |
| FakeDataSource.DeleteKeepsOrder | app/src/mock/java/com/github/jim108dev/simple_task_count/data/FakeTasksRemoteDataSource.kt:46-48 | removing an id drops exactly the tasks with that id from the listing and keeps the others in order |
| FakeDataSource.DeleteMissingIsNoOp | app/src/mock/java/com/github/jim108dev/simple_task_count/data/FakeTasksRemoteDataSource.kt:47 | removing an id that is not stored changes neither the key order nor the listing |
| FakeDataSource.FakeTasksRemoteDataSource.constructor | app/src/mock/java/com/github/jim108dev/simple_task_count/data/FakeTasksRemoteDataSource.kt:29 | the store starts empty |
| FakeDataSource.FakeTasksRemoteDataSource.GetTask | app/src/mock/java/com/github/jim108dev/simple_task_count/data/FakeTasksRemoteDataSource.kt:31-36 | Success of the stored task when the id is present, otherwise Error("Could not find task") |
| FakeDataSource.FakeTasksRemoteDataSource.GetTasks | app/src/mock/java/com/github/jim108dev/simple_task_count/data/FakeTasksRemoteDataSource.kt:38-40 | always Success of the insertion-ordered listing, which holds every stored task once |
| FakeDataSource.FakeTasksRemoteDataSource.SaveTask | app/src/mock/java/com/github/jim108dev/simple_task_count/data/FakeTasksRemoteDataSource.kt:42-44 | the id now maps to the task and every other id is unchanged; a new id is appended to the listing, an existing one is replaced in place |
| FakeDataSource.FakeTasksRemoteDataSource.DeleteTask | app/src/mock/java/com/github/jim108dev/simple_task_count/data/FakeTasksRemoteDataSource.kt:46-48 | only that id is removed, and the listing keeps the others in order |
| FakeDataSource.FakeTasksRemoteDataSource.DeleteAllTasks | app/src/mock/java/com/github/jim108dev/simple_task_count/data/FakeTasksRemoteDataSource.kt:50-52 | the store and its listing become empty |
| FakeDataSource.StoreScenarios | app/src/mock/java/com/github/jim108dev/simple_task_count/data/FakeTasksRemoteDataSource.kt:31-52 | save then get finds the task, a second save under the same id replaces it, and after clear every get fails and the listing is Success([]) |
| Repository.ToMap | app/src/main/java/com/example/android/architecture/blueprints/todoapp/data/source/LocalTasksRepository.kt:135-140 | putting the tasks in order leaves every task's id as a key, each entry under its own id |
| Repository.ToMapLastWriteWins | app/src/main/java/com/example/android/architecture/blueprints/todoapp/data/source/LocalTasksRepository.kt:137-139 | an id is a key exactly when some task has it, and it holds the last task with that id |
| Repository.IdOrderIrrelevant | app/src/main/java/com/example/android/architecture/blueprints/todoapp/data/source/LocalTasksRepository.kt:137 | putting the id-sorted list gives the same map as putting the list in fetch order |
| Repository.ToMapValuesFrom | app/src/main/java/com/example/android/architecture/blueprints/todoapp/data/source/LocalTasksRepository.kt:138 | every value in the map is one of the put tasks |
| Repository.ToMapHoldsEach | app/src/main/java/com/example/android/architecture/blueprints/todoapp/data/source/LocalTasksRepository.kt:135-140 | for a list without repeated ids, the map has one entry per task, each under its own id |
| Repository.RefreshedHoldsExactly | app/src/main/java/com/example/android/architecture/blueprints/todoapp/data/source/LocalTasksRepository.kt:54-56 | after a successful fetch the cache is absent only when it was absent and the fetch was empty; otherwise it holds exactly the fetched tasks by id, and nothing from before |
| Repository.ValuesOf | app/src/main/java/com/example/android/architecture/blueprints/todoapp/data/source/LocalTasksRepository.kt:50 | gives every value of the map once, in an unspecified order |
| Repository.LocalTasksRepository.constructor | app/src/main/java/com/example/android/architecture/blueprints/todoapp/data/source/LocalTasksRepository.kt:42 | the cache starts absent and nothing has been sent to the local source |
| Repository.LocalTasksRepository.GetTasks | app/src/main/java/com/example/android/architecture/blueprints/todoapp/data/source/LocalTasksRepository.kt:44-70 | an unforced read with a cache answers from the cache sorted by date, without a call and without changing it. Otherwise one call goes to the local source: on success the cache is refilled and the cache is listed by date, or Success([]) if it is still absent. On failure the cache is unchanged and the answer is its stale listing, or Error("Illegal state") if it is absent. An empty fetch always gives Success([]) |
| Repository.LocalTasksRepository.SortedCacheValues | app/src/main/java/com/example/android/architecture/blueprints/todoapp/data/source/LocalTasksRepository.kt:50 | a listing of the cache's values sorted ascending by date, with as many elements as entries |
| Repository.LocalTasksRepository.FetchTasksFromLocal | app/src/main/java/com/example/android/architecture/blueprints/todoapp/data/source/LocalTasksRepository.kt:72-76 | sends one getTasks call; a success is returned as it is, any failure becomes Error("Error fetching from  local") |
| Repository.LocalTasksRepository.GetTask | app/src/main/java/com/example/android/architecture/blueprints/todoapp/data/source/LocalTasksRepository.kt:81-98 | an unforced read of a cached id answers from the cache without a call. Otherwise one getTask call: on success the task is put into the cache (which is created if absent) and returned; on failure the answer is the fixed error and the cache is unchanged |
| Repository.LocalTasksRepository.FetchTaskFromLocal | app/src/main/java/com/example/android/architecture/blueprints/todoapp/data/source/LocalTasksRepository.kt:100-107 | sends one getTask call; a success is returned as it is, any failure becomes Error("Error fetching from remote and local") |
| Repository.LocalTasksRepository.SaveTask | app/src/main/java/com/example/android/architecture/blueprints/todoapp/data/source/LocalTasksRepository.kt:109-116 | the cache (created if absent) maps the id to the task, other entries are unchanged, and one saveTask call of that task is sent |
| Repository.LocalTasksRepository.DeleteAllTasks | app/src/main/java/com/example/android/architecture/blueprints/todoapp/data/source/LocalTasksRepository.kt:118-125 | an existing cache becomes empty, an absent one stays absent; one deleteAllTasks call is sent |
| Repository.LocalTasksRepository.DeleteTask | app/src/main/java/com/example/android/architecture/blueprints/todoapp/data/source/LocalTasksRepository.kt:127-133 | only that id leaves an existing cache, an absent cache stays absent; one deleteTask call is sent |
| Repository.LocalTasksRepository.RefreshCache | app/src/main/java/com/example/android/architecture/blueprints/todoapp/data/source/LocalTasksRepository.kt:135-140 | the cache becomes the map of the fetched tasks by id, and stays absent if it was absent and the list is empty; no call is sent |
| Repository.LocalTasksRepository.GetTaskWithId | app/src/main/java/com/example/android/architecture/blueprints/todoapp/data/source/LocalTasksRepository.kt:142 | the cached task under that id if the cache exists and holds it, otherwise nothing |
| Repository.LocalTasksRepository.CacheTask | app/src/main/java/com/example/android/architecture/blueprints/todoapp/data/source/LocalTasksRepository.kt:144-152 | creates the cache if absent and puts an equal copy of the task under its id; the copy is returned |
| Repository.LocalTasksRepository.CacheAndPerform | app/src/main/java/com/example/android/architecture/blueprints/todoapp/data/source/LocalTasksRepository.kt:154-157 | caches the task, then the calls `perform` sends on the cached copy are the only ones sent |
| FakeBacked.ListingRebuildsStore | app/src/mock/java/com/github/jim108dev/simple_task_count/data/FakeTasksRemoteDataSource.kt:38-40 | putting the fake's listing into a map rebuilds the fake's own map |
| FakeBacked.SingleEntryListing | app/src/main/java/com/example/android/architecture/blueprints/todoapp/data/source/LocalTasksRepository.kt:50 | a one-entry cache is listed as that one task |
| FakeBacked.FakeBackedRepository.constructor | app/src/main/java/com/example/android/architecture/blueprints/todoapp/data/source/LocalTasksRepository.kt:42 | an absent cache over an empty store |
| FakeBacked.FakeBackedRepository.GetTasks | app/src/main/java/com/example/android/architecture/blueprints/todoapp/data/source/LocalTasksRepository.kt:44-70 | over the fake the read always succeeds and the cache stays a sub-map of the store. After a forced or first read the cache is exactly the store; an absent cache remains only over an empty store, with answer Success([]) |
| FakeBacked.FakeBackedRepository.GetTask | app/src/main/java/com/example/android/architecture/blueprints/todoapp/data/source/LocalTasksRepository.kt:81-98 | answers Success of the stored task, or the fixed error when the id is not stored, whatever the path; the cache gains only that entry |
| FakeBacked.FakeBackedRepository.SaveTask | app/src/main/java/com/example/android/architecture/blueprints/todoapp/data/source/LocalTasksRepository.kt:109-116 | the cache and the store both map the id to the task, and the cache stays a sub-map of the store |
| FakeBacked.FakeBackedRepository.DeleteTask | app/src/main/java/com/example/android/architecture/blueprints/todoapp/data/source/LocalTasksRepository.kt:127-133 | the id leaves the store and any existing cache, and the cache stays a sub-map of the store |
| FakeBacked.FakeBackedRepository.DeleteAllTasks | app/src/main/java/com/example/android/architecture/blueprints/todoapp/data/source/LocalTasksRepository.kt:118-125 | the store is empty, an existing cache is empty and an absent one stays absent |
| FakeBacked.FakeBackedRepository.GetFilteredTasks | app/src/main/java/com/example/android/architecture/blueprints/todoapp/domain/GetTasksUseCase.kt:16-23 | `forceUpdate` reaches getTasks unchanged, so the local source is asked exactly when the repository's policy says so. The answer is a success equal to the filter's selection from the repository's listing, which is the cache sorted by date with each task once. So the answer is sorted by date and holds exactly the cached tasks the filter shows |
| FakeBacked.SelectionKeepsOrder | app/src/main/java/com/example/android/architecture/blueprints/todoapp/domain/GetTasksUseCase.kt:29-42 | filtering a sorted list leaves it sorted, since the filter keeps a subsequence in input order |
| FakeBacked.SaveThenList | app/src/main/java/com/example/android/architecture/blueprints/todoapp/data/source/LocalTasksRepository.kt:109-116 | saving into a fresh repository and reading without a force lists exactly that task |
| FakeBacked.DeleteAllThenList | app/src/main/java/com/example/android/architecture/blueprints/todoapp/data/source/LocalTasksRepository.kt:118-125 | after deleteAllTasks an unforced read is Success([]), whether the cache existed or not |
| FakeBacked.PartialCacheAfterGetTask | app/src/main/java/com/example/android/architecture/blueprints/todoapp/data/source/LocalTasksRepository.kt:144-151 | getTask on an absent cache creates a one-entry cache, and a later unforced getTasks lists that entry alone, although the store holds more |

## Left out

- Coroutines, dispatchers and `ConcurrentHashMap`. Each suspend function is one sequential atomic step, and `launch`ed local calls are recorded as issued in the order the code starts them.
- The remote data source field of the repository. It is declared but never called, so it is not modelled.
- The Room-backed local `TasksDataSource`. The Room DAO is not part of this model. Its answers are parameters of the repository's methods; the in-memory fake stands in for it in `FakeBacked`.
- `Task.kt` and `Result.kt` are not part of this model. The record is `Task(id, date, title, amount)`, and an error is modelled by its message only.
- The `forceUpdate` parameter of `fetchTasksFromLocal`. The code never reads it.
- The UI and presentation layers, the view models and the view-model factory. They hold no cache or filter logic.
- The use-case wrappers `GetTaskUseCase`, `SaveTaskUseCase`, `DeleteTaskUseCase` and `DeleteAllTasksUseCase`. They only delegate to the repository. The delegation of `GetTasksUseCase` is modelled in `FakeBacked.FakeBackedRepository.GetFilteredTasks`.
- Espresso idling-resource instrumentation around the use case. It has no effect on results.
- `DateUtil`, which formats and parses dates through `SimpleDateFormat`, a library not part of this model. Dates are taken as millisecond timestamps.
- Task id generation (the default random UUID). Ids are given strings.
- The `NotImplementedError()` of the filter's `else` branch. It is only constructed, never thrown, and that branch cannot run while the filter is not ALL.
- Repository.LocalTasksRepository.SaveTask, Repository.LocalTasksRepository.DeleteTask, Repository.LocalTasksRepository.DeleteAllTasks: the local source's `saveTask`, `deleteTask` and `deleteAllTasks` are assumed to succeed. In the code they return nothing and can fail only by throwing, which `coroutineScope` rethrows. If that happened, `deleteTask` would skip removing the id from the cache and `deleteAllTasks` would skip clearing it, while `saveTask` would already have updated the cache. These thrown failures are not modelled.
- Repository.LocalTasksRepository.GetTasks, Repository.LocalTasksRepository.GetTask: a fetch from the local source that throws, instead of returning `Error`, is not modelled.
- FakeBacked.FakeBackedRepository: `FakeTasksRemoteDataSource` is a Kotlin `object`, one store for the whole process. The model gives each `FakeBackedRepository` its own store, so two repositories never share or alias one.
- Sorting.IdLe: compares ids character by character as Dafny characters (Unicode scalar values) rather than UTF-16 code units, as Kotlin's `compareTo` does. The two orders differ only for characters outside the Basic Multilingual Plane. The ordering only affects the order in which `refreshCache` puts tasks, and the resulting map is proved independent of that order.
- Repository.LocalTasksRepository.SaveTask: the code updates the cache before it launches the local save. The model records both in that order inside one atomic step. Nothing can observe the state between them, because there is no concurrency.
- FakeBacked.FakeBackedRepository.GetTasks: asks the fake for its listing before calling the repository, even when the repository then answers from the cache. The fake's `getTasks` changes nothing, and the repository's log still records only the calls it makes.
- GetTasksUseCase.TestScenarios: states the list sizes the unit tests check, and no more. The full contents are given by `GetTasksUseCase.Invoke` and the lemmas about `Selected`.
