/** GetTasksUseCase: asks the repository for the task list and, on success,
    keeps the tasks the current filter selects by the sign of their amount.
    The repository call is an input here: the use case receives its result. */
module GetTasksUseCase {
  import opened Tasks

  /** TasksFilterType: every task, the non-negative amounts (DEBIT) or the
      negative ones (CREDIT). */
  datatype TasksFilterType = All | Debit | Credit

  /** Whether the filter shows the task. */
  predicate Shows(filter: TasksFilterType, task: Task)
  {
    match filter
    case All => true
    case Debit => task.amount >= 0
    case Credit => task.amount < 0
  }

  /** Reference definition: the tasks of `s` the filter shows, in their order. */
  function Selected(s: seq<Task>, filter: TasksFilterType): seq<Task>
  {
    if s == [] then []
    else
      var last := s[|s| - 1];
      Selected(s[..|s| - 1], filter) + (if Shows(filter, last) then [last] else [])
  }

  /** `invoke`, given the repository's answer: an error, or any answer under
      ALL, is returned as it is; otherwise the loop appends each shown task
      of the answer to `tasksToShow`. */
  method Invoke(tasksResult: Result<seq<Task>>, currentFiltering: TasksFilterType)
    returns (r: Result<seq<Task>>)
    ensures tasksResult.Error? || currentFiltering == All ==> r == tasksResult
    ensures tasksResult.Success? && currentFiltering != All ==>
              r == Success(Selected(tasksResult.data, currentFiltering))
  {
    if tasksResult.Success? && currentFiltering != All {
      var tasks := tasksResult.data;
      var tasksToShow: seq<Task> := [];
      for i := 0 to |tasks|
        invariant tasksToShow == Selected(tasks[..i], currentFiltering)
      {
        var task := tasks[i];
        assert tasks[..i + 1][..i] == tasks[..i];
        match currentFiltering
        case Debit =>
          if task.amount >= 0 {
            tasksToShow := tasksToShow + [task];
          }
        case Credit =>
          if task.amount < 0 {
            tasksToShow := tasksToShow + [task];
          }
        case All =>
          // The `else` branch only allocates a NotImplementedError; it
          // never runs while the filter is not ALL.
      }
      assert tasks[..|tasks|] == tasks;
      return Success(tasksToShow);
    }
    return tasksResult;
  }

  /** ALL keeps the list as it is. */
  lemma {:induction false} SelectedAll(s: seq<Task>)
    ensures Selected(s, All) == s
  {
    if s != [] {
      SelectedAll(s[..|s| - 1]);
      assert s[..|s| - 1] + [s[|s| - 1]] == s;
    }
  }

  /** The filter keeps exactly the tasks of the input it shows: for DEBIT the
      ones with `amount >= 0`, for CREDIT the ones with `amount < 0`. */
  lemma {:induction false} SelectedMembers(s: seq<Task>, filter: TasksFilterType)
    ensures forall t :: t in Selected(s, filter) <==> t in s && Shows(filter, t)
  {
    if s != [] {
      var init, last := s[..|s| - 1], s[|s| - 1];
      SelectedMembers(init, filter);
      assert s == init + [last];
    }
  }

  /** The output is a subsequence of the input: `idx` lists, in increasing
      order, the positions of the input the filter shows, every one of them,
      and the output holds the tasks at those positions. */
  lemma {:induction false} SelectedIsSubsequence(s: seq<Task>, filter: TasksFilterType)
    returns (idx: seq<nat>)
    ensures |idx| == |Selected(s, filter)|
    ensures forall k :: 0 <= k < |idx| ==> idx[k] < |s| && Selected(s, filter)[k] == s[idx[k]]
    ensures forall k1, k2 :: 0 <= k1 < k2 < |idx| ==> idx[k1] < idx[k2]
    ensures forall j :: 0 <= j < |s| ==> (j in idx <==> Shows(filter, s[j]))
  {
    if s == [] {
      idx := [];
    } else {
      var n := |s| - 1;
      var init := s[..n];
      var pre := SelectedIsSubsequence(init, filter);
      var sel := Selected(s, filter);
      var preSel := Selected(init, filter);
      if Shows(filter, s[n]) {
        assert sel == preSel + [s[n]];
        idx := pre + [n];
        forall k | 0 <= k < |idx| ensures idx[k] < |s| && sel[k] == s[idx[k]] {
          if k < |pre| {
            assert sel[k] == preSel[k];
            assert init[pre[k]] == s[pre[k]];
          }
        }
      } else {
        assert sel == preSel;
        idx := pre;
        forall k | 0 <= k < |idx| ensures idx[k] < |s| && sel[k] == s[idx[k]] {
          assert init[pre[k]] == s[pre[k]];
        }
      }
      forall j | 0 <= j < |s| ensures j in idx <==> Shows(filter, s[j]) {
        if j < n {
          assert s[j] == init[j];
          assert j in idx <==> j in pre;
        }
      }
    }
  }

  /** Appending a task to the input appends it to the output when shown. */
  lemma SelectedSnoc(init: seq<Task>, last: Task, filter: TasksFilterType)
    ensures Selected(init + [last], filter) == Selected(init, filter) + (if Shows(filter, last) then [last] else [])
  {
    var s := init + [last];
    assert s[..|s| - 1] == init;
  }

  lemma {:induction false} DebitCreditCount(s: seq<Task>)
    ensures multiset(Selected(s, Debit)) + multiset(Selected(s, Credit)) == multiset(s)
  {
    if s != [] {
      var init, last := s[..|s| - 1], s[|s| - 1];
      assert s == init + [last];
      DebitCreditCount(init);
      SelectedSnoc(init, last, Debit);
      SelectedSnoc(init, last, Credit);
      var d0, c0 := Selected(init, Debit), Selected(init, Credit);
      assert multiset(s) == multiset(init) + multiset{last};
      if last.amount >= 0 {
        assert multiset(d0 + [last]) == multiset(d0) + multiset{last};
        assert multiset(Selected(s, Debit)) == multiset(d0) + multiset{last};
        assert multiset(Selected(s, Credit)) == multiset(c0);
      } else {
        assert multiset(c0 + [last]) == multiset(c0) + multiset{last};
        assert multiset(Selected(s, Debit)) == multiset(d0);
        assert multiset(Selected(s, Credit)) == multiset(c0) + multiset{last};
      }
    }
  }

  /** DEBIT and CREDIT partition any list: no task is in both outputs, and
      together they hold every task of the input as often as it occurs. */
  lemma DebitCreditPartition(s: seq<Task>)
    ensures multiset(Selected(s, Debit)) + multiset(Selected(s, Credit)) == multiset(s)
    ensures |Selected(s, Debit)| + |Selected(s, Credit)| == |s|
    ensures forall t :: !(t in Selected(s, Debit) && t in Selected(s, Credit))
  {
    DebitCreditCount(s);
    assert |multiset(Selected(s, Debit)) + multiset(Selected(s, Credit))| == |multiset(s)|;
    SelectedMembers(s, Debit);
    SelectedMembers(s, Credit);
  }

  /** The outcomes listed in GetTasksUseCaseTest: an empty repository gives an
      empty success, an error stays an error, and the amounts 10, 20 and -5
      give three tasks unfiltered, two under DEBIT and one under CREDIT. */
  method TestScenarios(date: int, message: string)
    returns (empty: Result<seq<Task>>, failed: Result<seq<Task>>,
             all: Result<seq<Task>>, debit: Result<seq<Task>>, credit: Result<seq<Task>>)
    ensures empty == Success([])
    ensures failed.Error?
    ensures all.Success? && |all.data| == 3
    ensures debit.Success? && |debit.data| == 2
    ensures credit.Success? && |credit.data| == 1
  {
    var t0, t1, t2 := Task("1", date, "title", 10), Task("2", date, "title", 20), Task("3", date, "title", -5);
    var tasks := [t0, t1, t2];
    empty := Invoke(Success([]), All);
    failed := Invoke(Error(message), All);
    all := Invoke(Success(tasks), All);
    debit := Invoke(Success(tasks), Debit);
    credit := Invoke(Success(tasks), Credit);
    assert tasks[..2] == [t0, t1] && [t0, t1][..1] == [t0] && [t0][..0] == [];
    assert Selected([t0], Debit) == [t0] && Selected([t0], Credit) == [];
    assert Selected([t0, t1], Debit) == [t0, t1] && Selected([t0, t1], Credit) == [];
    assert Selected(tasks, Debit) == [t0, t1] && Selected(tasks, Credit) == [t2];
  }
}
