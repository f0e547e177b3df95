/** The data model shared by every layer: a task record and the success/error
    wrapper that data sources, the repository and the use cases return. */
module Tasks {

  /** A dated, titled, signed-amount record. The Kotlin constructor is
      Task(date, title, amount, id); `date` is the millisecond timestamp the
      Room converters store, so ordering by date is integer ordering. */
  datatype Task = Task(id: string, date: int, title: string, amount: int)

  /** A Kotlin nullable value. */
  datatype Option<+T> = None | Some(value: T)

  /** The application's Result: Success(data) or Error(Exception(message)). */
  datatype Result<+T> = Success(data: T) | Error(message: string)

  /** Every entry of an id-keyed task map is stored under its own id, as both
      the repository cache and the in-memory data source put `task.id -> task`. */
  ghost predicate KeyedById(m: map<string, Task>)
  {
    forall k :: k in m ==> m[k].id == k
  }

  /** No two tasks of the list share an id. */
  ghost predicate DistinctIds(s: seq<Task>)
  {
    forall i, j :: 0 <= i < j < |s| ==> s[i].id != s[j].id
  }

  /** In an id-keyed map distinct keys hold distinct tasks, so the map has
      as many values as entries. */
  lemma {:induction false} KeyedValuesCount(m: map<string, Task>)
    requires KeyedById(m)
    ensures |m.Values| == |m|
  {
    if m != map[] {
      var k :| k in m;
      var rest := m - {k};
      assert m.Keys == rest.Keys + {k};
      KeyedValuesCount(rest);
      assert m.Values == rest.Values + {m[k]} by {
        forall t | t in m.Values ensures t in rest.Values + {m[k]} {
          var j :| j in m && m[j] == t;
          if j != k { assert rest[j] == t; }
        }
        forall t | t in rest.Values + {m[k]} ensures t in m.Values {
          if t != m[k] {
            var j :| j in rest && rest[j] == t;
            assert m[j] == t;
          }
        }
      }
      forall j | j in rest ensures rest[j] != m[k] {
        assert rest[j].id == j;
      }
    }
  }
}
