/**
 * Course progress on the dashboard: the list of completed lesson-item ids,
 * how a toggle changes it, how the stored value is read back, the
 * percentage shown, and the tracker that commits a new list only after the
 * remote upsert has succeeded.
 */
module Progress {
  import opened Wrappers
  import Exercises

  /** `items.filter(id => id !== x)`: every copy of `x` removed, the other
      elements kept in their order. */
  function RemoveAll(items: seq<string>, x: string): (r: seq<string>)
    ensures x !in r
    ensures forall y :: y in r <==> y in items && y != x
    ensures |r| <= |items|
  {
    if items == [] then []
    else (if items[0] == x then [] else [items[0]]) + RemoveAll(items[1..], x)
  }

  /** Filtering distributes over concatenation, which with the one-element
      cases pins down order preservation. */
  lemma {:induction false} RemoveAllAppend(a: seq<string>, b: seq<string>, x: string)
    ensures RemoveAll(a + b, x) == RemoveAll(a, x) + RemoveAll(b, x)
  {
    if a != [] {
      assert (a + b)[1..] == a[1..] + b;
      RemoveAllAppend(a[1..], b, x);
    } else {
      assert a + b == b;
    }
  }

  /** Removing an absent id changes nothing. */
  lemma {:induction false} RemoveAllAbsent(items: seq<string>, x: string)
    requires x !in items
    ensures RemoveAll(items, x) == items
  {
    if items != [] {
      RemoveAllAbsent(items[1..], x);
    }
  }

  /** Exactly the copies of `x` go; every other id keeps its multiplicity. */
  lemma {:induction false} RemoveAllMultiset(items: seq<string>, x: string)
    ensures multiset(RemoveAll(items, x)) == multiset(items)[x := 0]
  {
    if items != [] {
      var rest := items[1..];
      RemoveAllMultiset(rest, x);
      assert items == [items[0]] + rest;
      if items[0] == x {
        assert RemoveAll(items, x) == RemoveAll(rest, x);
      } else {
        assert RemoveAll(items, x) == [items[0]] + RemoveAll(rest, x);
      }
    }
  }

  /** The list `toggleItemCompletion` sends: without the id when it was
      there, with the id appended when it was not. */
  function Toggled(items: seq<string>, itemId: string): (r: seq<string>)
    ensures itemId in r <==> itemId !in items
    ensures forall y :: y != itemId ==> (y in r <==> y in items)
    ensures itemId !in items ==> r == items + [itemId]
  {
    if itemId in items then RemoveAll(items, itemId) else items + [itemId]
  }

  /** As sets of ids, a toggle is the symmetric difference with the id. */
  lemma ToggledAsSet(items: seq<string>, itemId: string)
    ensures (set y | y in Toggled(items, itemId)) ==
      if itemId in items then (set y | y in items) - {itemId}
      else (set y | y in items) + {itemId}
  {
  }

  /** Completing an item and then un-completing it restores the list exactly. */
  lemma ToggleTwiceAbsent(items: seq<string>, itemId: string)
    requires itemId !in items
    ensures Toggled(Toggled(items, itemId), itemId) == items
  {
    RemoveAllAppend(items, [itemId], itemId);
    RemoveAllAbsent(items, itemId);
  }

  /** Un-completing and then completing restores the list as a set of ids. */
  lemma ToggleTwicePresent(items: seq<string>, itemId: string)
    requires itemId in items
    ensures var r := Toggled(Toggled(items, itemId), itemId);
      (forall y :: y in r <==> y in items) && r[|r| - 1] == itemId
  {
  }

  /** ... but not always as a list: the id moves to the end. */
  lemma ToggleTwiceReorders()
    ensures Toggled(Toggled(["a", "b"], "a"), "a") == ["b", "a"]
  {
    assert "a" in ["a", "b"];
    assert RemoveAll(["a", "b"], "a") == ["b"] by {
      assert ["a", "b"][1..] == ["b"];
      assert RemoveAll(["b"], "a") == ["b"] by { RemoveAllAbsent(["b"], "a"); }
    }
  }

  predicate Distinct(items: seq<string>) {
    forall i, j :: 0 <= i < j < |items| ==> items[i] != items[j]
  }

  lemma {:induction false} RemoveAllDistinct(items: seq<string>, x: string)
    requires Distinct(items)
    ensures Distinct(RemoveAll(items, x))
  {
    if items != [] {
      assert Distinct(items[1..]) by {
        forall i, j | 0 <= i < j < |items[1..]| ensures items[1..][i] != items[1..][j] {
          assert items[1..][i] == items[i + 1] && items[1..][j] == items[j + 1];
        }
      }
      RemoveAllDistinct(items[1..], x);
      var rest := RemoveAll(items[1..], x);
      assert items[0] !in items[1..];
      assert items[0] !in rest;
    }
  }

  /** Toggling never introduces a duplicate id. */
  lemma ToggledDistinct(items: seq<string>, itemId: string)
    requires Distinct(items)
    ensures Distinct(Toggled(items, itemId))
  {
    if itemId in items {
      RemoveAllDistinct(items, itemId);
    }
  }

  /** `Math.round(completed / total * 100)`, or 0 when there are no lesson
      items. The result is the whole percentage nearest to the exact ratio,
      halves rounded up. */
  function PercentOf(completed: nat, total: nat): (r: nat)
    ensures total == 0 ==> r == 0
    ensures total > 0 ==> r * (2 * total) <= 200 * completed + total < (r + 1) * (2 * total)
  {
    if total == 0 then 0
    else
      var num, den := 200 * completed + total, 2 * total;
      var r := num / den;
      assert r * den <= num < (r + 1) * den;
      r
  }

  lemma MulLe(a: int, b: int, k: nat)
    requires a <= b
    ensures a * k <= b * k
  {
  }

  /** The percentage is within half a point of the exact ratio. */
  lemma PercentIsRoundedRatio(completed: nat, total: nat)
    requires total > 0
    ensures var r := PercentOf(completed, total) as real;
      var exact := 100.0 * completed as real / total as real;
      r - 0.5 <= exact < r + 0.5
  {
    var r := PercentOf(completed, total);
    var t, c := total as real, completed as real;
    var exact := 100.0 * c / t;
    assert exact * t == 100.0 * c;
    assert (r as real - 0.5) * t <= 100.0 * c < (r as real + 0.5) * t by {
      assert (r * (2 * total)) as real <= (200 * completed + total) as real;
      assert (200 * completed + total) as real < ((r + 1) * (2 * total)) as real;
    }
    BelowQuotient(r as real - 0.5, 100.0 * c, t);
    AboveQuotient(r as real + 0.5, 100.0 * c, t);
  }

  lemma BelowQuotient(a: real, b: real, t: real)
    requires t > 0.0 && a * t <= b
    ensures a <= b / t
  {

  }

  lemma AboveQuotient(a: real, b: real, t: real)
    requires t > 0.0 && b < a * t
    ensures b / t < a
  {

  }

  /** With no more completed ids than lesson items the bar stays within 0..100;
      all items done shows exactly 100. */
  lemma PercentBounded(completed: nat, total: nat)
    requires completed <= total
    ensures PercentOf(completed, total) <= 100
    ensures total > 0 && completed == total ==> PercentOf(completed, total) == 100
  {
    var r := PercentOf(completed, total);
    if total > 0 {
      if r > 100 {
        MulLe(101, r, 2 * total);
      }
      if completed == total && r < 100 {
        MulLe(r + 1, 100, 2 * total);
      }
    }
  }

  /** What the `completed_items` column of a progress row holds, as far as the
      reader can tell: an array, or some other JSON value that is truthy or not
      (null, a missing field, 0, "" and false are the falsy ones). */
  datatype StoredItems = ArrayValue(items: seq<string>) | OtherValue(truthy: bool)

  /** The reply of the progress query: an exception, or an optional error code
      with an optional row. */
  datatype LoadReply =
    | Threw
    | Reply(errorCode: Option<string>, row: Option<StoredItems>)

  /** PostgREST's code for "no rows", which is not a failure here. */
  const NotFoundCode: string := "PGRST116"

  /** `Array.isArray(v) ? v : []`. */
  function Normalised(v: StoredItems): (r: seq<string>)
    ensures v.ArrayValue? ==> r == v.items
    ensures v.OtherValue? ==> r == []
  {
    if v.ArrayValue? then v.items else []
  }

  /** Whether the reply leads to the completed list being replaced: only a
      reply with a row, and no error other than not-found, can; a row holding
      an array always does, even an empty one. */
  predicate Replaces(reply: LoadReply)
    ensures Replaces(reply) ==> reply.Reply? && reply.row.Some?
    ensures Replaces(reply) && reply.errorCode.Some? ==> reply.errorCode.value == NotFoundCode
    ensures reply.Reply? && reply.errorCode.None? && reply.row.Some? && reply.row.value.ArrayValue?
            ==> Replaces(reply)
  {
    && reply.Reply?
    && (reply.errorCode.None? || reply.errorCode.value == NotFoundCode)
    && reply.row.Some?
    && (reply.row.value.ArrayValue? || reply.row.value.truthy)
  }

  /** The completed list after a progress load answered with `reply`. */
  function AfterLoad(current: seq<string>, reply: LoadReply): (r: seq<string>)
    ensures Replaces(reply) ==> r == Normalised(reply.row.value)
    ensures !Replaces(reply) ==> r == current
  {
    if Replaces(reply) then Normalised(reply.row.value) else current
  }

  /** A load never keeps stale ids when it replaces: the result is either the
      old list unchanged, an array read from the row, or empty. */
  lemma AfterLoadCases(current: seq<string>, reply: LoadReply)
    ensures var r := AfterLoad(current, reply);
      r == current || r == [] || (reply.Reply? && reply.row == Some(ArrayValue(r)))
  {
  }

  /** The not-found code is treated like no error at all. */
  lemma NotFoundIsNoError(current: seq<string>, row: Option<StoredItems>)
    ensures AfterLoad(current, Reply(Some(NotFoundCode), row)) == AfterLoad(current, Reply(None, row))
  {
  }

  /** Any other error, and an exception, leave the list unchanged. */
  lemma OtherErrorKeeps(current: seq<string>, code: string, row: Option<StoredItems>)
    requires code != NotFoundCode
    ensures AfterLoad(current, Reply(Some(code), row)) == current
    ensures AfterLoad(current, Threw) == current
  {
  }

  /** The exercise callback's rule: toggle only an item not yet completed. */
  function AfterAttempt(items: seq<string>, itemId: string): (r: seq<string>)
    ensures itemId in r
    ensures forall y :: y in items ==> y in r
    ensures itemId in items ==> r == items
    ensures itemId !in items ==> r == items + [itemId]
  {
    if itemId in items then items else Toggled(items, itemId)
  }

  /** The callback can add an id but never removes one, and a second attempt
      is a no-op. */
  lemma AttemptIsIdempotent(items: seq<string>, itemId: string)
    ensures AfterAttempt(AfterAttempt(items, itemId), itemId) == AfterAttempt(items, itemId)
    ensures |items| <= |AfterAttempt(items, itemId)| <= |items| + 1
  {
  }

  /** The dashboard's progress state. `hasUser` and `hasCourse` stand for the
      signed-in user and the loaded course; `upsertOk` for the outcome of the
      upsert (an error reply and an exception both count as failure). */
  class ProgressTracker {
    var completedItems: seq<string>

    constructor ()
      ensures completedItems == []
    {
      completedItems := [];
    }

    /** `getProgressPercentage` for a course with `lessonItemCount` items. */
    function ProgressPercentage(lessonItemCount: nat): (r: nat)
      reads this
      ensures r == PercentOf(|completedItems|, lessonItemCount)
      ensures |completedItems| <= lessonItemCount ==> r <= 100
      ensures lessonItemCount == 0 ==> r == 0
    {
      var r := PercentOf(|completedItems|, lessonItemCount);
      if |completedItems| <= lessonItemCount then
        PercentBounded(|completedItems|, lessonItemCount);
        r
      else r
    }

    /**
     * `toggleItemCompletion`. Without a user or a course nothing is sent and
     * nothing changes. Otherwise the toggled list is sent, and it becomes the
     * state only when the upsert succeeds.
     */
    method ToggleItemCompletion(hasUser: bool, hasCourse: bool, itemId: string, upsertOk: bool)
      returns (sent: Option<seq<string>>)
      modifies this
      ensures !(hasUser && hasCourse) ==> sent == None
      ensures hasUser && hasCourse ==> sent == Some(Toggled(old(completedItems), itemId))
      ensures completedItems == if sent.Some? && upsertOk then sent.value else old(completedItems)
    {
      if !hasUser || !hasCourse {
        return None;
      }
      var newCompletedItems := Toggled(completedItems, itemId);
      sent := Some(newCompletedItems);
      if upsertOk {
        completedItems := newCompletedItems;
      }
    }

    /** The `onAttemptSubmitted` callback: toggle the exercise's item only when
        it is not yet completed, so it is added and never removed. */
    method OnAttemptSubmitted(hasUser: bool, hasCourse: bool, itemId: string, upsertOk: bool)
      returns (toggleCalled: bool, sent: Option<seq<string>>)
      modifies this
      ensures toggleCalled == old(itemId !in completedItems)
      ensures sent.Some? <==> toggleCalled && hasUser && hasCourse
      ensures old(itemId in completedItems) ==> sent == None && completedItems == old(completedItems)
      ensures sent.Some? ==> sent.value == old(completedItems) + [itemId]
      ensures completedItems == if sent.Some? && upsertOk then AfterAttempt(old(completedItems), itemId)
                                else old(completedItems)
      ensures forall y :: y in old(completedItems) ==> y in completedItems
    {
      sent := None;
      toggleCalled := itemId !in completedItems;
      if toggleCalled {
        sent := ToggleItemCompletion(hasUser, hasCourse, itemId, upsertOk);
      }
    }

    /** `loadUserProgress`: without a user or a course no query is made;
        otherwise the reply decides the new list. */
    method LoadUserProgress(hasUser: bool, hasCourse: bool, reply: LoadReply) returns (queried: bool)
      modifies this
      ensures queried == (hasUser && hasCourse)
      ensures completedItems == if queried then AfterLoad(old(completedItems), reply) else old(completedItems)
    {
      queried := hasUser && hasCourse;
      if !queried {
        return;
      }
      if reply.Threw? {
        return;
      }
      if reply.errorCode.Some? && reply.errorCode.value != NotFoundCode {
        return;
      }
      if reply.row.Some? && (reply.row.value.ArrayValue? || reply.row.value.truthy) {
        completedItems := Normalised(reply.row.value);
      }
    }
  }

  /**
   * An exercise card on a lesson tab: a press of the card's submit button
   * and, once the attempt is recorded, the dashboard's callback for the card's
   * lesson item. An answered attempt, right or wrong, toggles an item not yet
   * completed exactly once and an already completed item not at all.
   */
  method SubmitFromLesson(
    widget: Exercises.ExerciseInstance, tracker: ProgressTracker, itemId: string,
    hasUser: bool, userId: string, hasCourse: bool, insertOk: bool, upsertOk: bool)
    returns (toggleCalls: nat)
    requires widget.Valid()
    modifies widget, tracker
    ensures widget.Valid() && widget.isSubmitting == old(widget.isSubmitting)
    ensures widget.selectedAnswer == old(widget.selectedAnswer) && widget.numericAnswer == old(widget.numericAnswer)
    ensures widget.isSubmitted == (old(widget.isSubmitted) || (old(widget.SubmitButtonEnabled()) && hasUser && insertOk))
    ensures old(widget.isSubmitted) ==> widget.isCorrect == old(widget.isCorrect)
    ensures old(widget.SubmitButtonEnabled()) && hasUser && insertOk ==>
      widget.isCorrect == Some(Exercises.Evaluate(widget.exercise, widget.selectedAnswer, widget.numericAnswer))
    ensures var recorded := old(widget.SubmitButtonEnabled()) && hasUser && insertOk;
      toggleCalls == if recorded && old(itemId !in tracker.completedItems) then 1 else 0
    ensures tracker.completedItems ==
      if toggleCalls == 1 && hasCourse && upsertOk then old(tracker.completedItems) + [itemId]
      else old(tracker.completedItems)
  {
    var insert, callbackCalls := widget.PressSubmit(hasUser, userId, insertOk);
    toggleCalls := 0;
    if callbackCalls == 1 {
      var toggled, sent := tracker.OnAttemptSubmitted(hasUser, hasCourse, itemId, upsertOk);
      if toggled {
        toggleCalls := 1;
      }
    }
  }

  /** Two presses on the same card: once the first has recorded an attempt
      the card is locked, so the second makes no toggle call whatever the
      inputs of the second press. */
  method SubmitTwiceFromLesson(
    widget: Exercises.ExerciseInstance, tracker: ProgressTracker, itemId: string,
    hasUser: bool, userId: string, hasCourse: bool, insertOk: bool, upsertOk: bool,
    hasUser2: bool, insertOk2: bool, upsertOk2: bool)
    returns (first: nat, second: nat)
    requires widget.Valid()
    modifies widget, tracker
    ensures old(widget.SubmitButtonEnabled()) && hasUser && insertOk ==> second == 0 && widget.isSubmitted
  {
    first := SubmitFromLesson(widget, tracker, itemId, hasUser, userId, hasCourse, insertOk, upsertOk);
    second := SubmitFromLesson(widget, tracker, itemId, hasUser2, userId, hasCourse, insertOk2, upsertOk2);
  }
}
