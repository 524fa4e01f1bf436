/**
  The shared-header life cycle that the extensible array and the fixed
  array follow alike: every open handle holds a file reference on the
  shared header; deleting an array that handles still hold only marks it
  pending, opening a pending array fails, and the close that drops the
  last file reference of a pending array deletes it.
 */
module Lifecycle {

  /** The header's file reference count (file_rc), its pending_delete flag,
      and whether the header has been deleted from the file. */
  datatype RefState = RefState(fileRc: nat, pendingDelete: bool, deleted: bool)

  /** Why an operation on the shared header fails: the header cannot be
      loaded (it is gone), or it is pending deletion. */
  datatype LifeError = CantProtect | PendingDeletion

  datatype Result<T> = Ok(value: T) | Err(error: LifeError)

  /** The states reachable from creation: a deleted header has no handles,
      and a pending deletion always has a handle to wait for. */
  predicate Inv(s: RefState)
  {
    && (s.deleted ==> s.fileRc == 0)
    && (s.pendingDelete && !s.deleted ==> s.fileRc > 0)
  }

  /** The state right after create: one handle, nothing pending. */
  function Created(): (s: RefState)
    ensures Inv(s) && s.fileRc == 1 && !s.pendingDelete && !s.deleted
  {
    RefState(1, false, false)
  }

  /** open: fails on a deleted or pending header; otherwise one more file
      reference. */
  function Open(s: RefState): (r: Result<RefState>)
    ensures r.Ok? <==> !s.deleted && !s.pendingDelete
    ensures s.deleted ==> r == Err(CantProtect)
    ensures !s.deleted && s.pendingDelete ==> r == Err(PendingDeletion)
    ensures r.Ok? ==> r.value == s.(fileRc := s.fileRc + 1)
    ensures Inv(s) && r.Ok? ==> Inv(r.value)
  {
    if s.deleted then Err(CantProtect)
    else if s.pendingDelete then Err(PendingDeletion)
    else Ok(s.(fileRc := s.fileRc + 1))
  }

  /** close: drops one file reference; when that was the last one and a
      deletion is pending, the array is deleted. */
  function Close(s: RefState): (r: RefState)
    requires s.fileRc > 0
    ensures r.fileRc == s.fileRc - 1 && r.pendingDelete == s.pendingDelete
    ensures r.deleted <==> s.deleted || (s.pendingDelete && s.fileRc == 1)
    ensures Inv(s) ==> Inv(r)
  {
    var dropped := s.(fileRc := s.fileRc - 1);
    if dropped.fileRc == 0 && dropped.pendingDelete then dropped.(deleted := true) else dropped
  }

  /** delete: fails on a header that is gone; defers the deletion while
      files hold the array open; deletes at once otherwise. */
  function Delete(s: RefState): (r: Result<RefState>)
    ensures r.Ok? <==> !s.deleted
    ensures r.Ok? && s.fileRc > 0 ==> r.value == s.(pendingDelete := true)
    ensures r.Ok? && s.fileRc == 0 ==> r.value == s.(deleted := true)
    ensures Inv(s) && r.Ok? ==> Inv(r.value)
  {
    if s.deleted then Err(CantProtect)
    else if s.fileRc > 0 then Ok(s.(pendingDelete := true))
    else Ok(s.(deleted := true))
  }

  /** The state after k successive closes. */
  function CloseTimes(s: RefState, k: nat): (r: RefState)
    requires k <= s.fileRc
    ensures r.fileRc == s.fileRc - k
    decreases k
  {
    if k == 0 then s else CloseTimes(Close(s), k - 1)
  }

  /** A deferred deletion takes effect at the last close and not before: after
      k of the n closes the array is deleted exactly when k == n, and every
      open in between is refused. */
  lemma {:induction false} DeferredDeleteAtLastClose(s: RefState, k: nat)
    requires Inv(s) && s.pendingDelete && !s.deleted
    requires k <= s.fileRc
    ensures CloseTimes(s, k).deleted <==> k == s.fileRc
    ensures Open(CloseTimes(s, k)).Err?
    decreases k
  {
    if k > 0 {
      var t := Close(s);
      if t.deleted {
        assert s.fileRc == 1 && k == 1;
        assert CloseTimes(t, 0) == t;
      } else {
        DeferredDeleteAtLastClose(t, k - 1);
      }
    }
  }

  /** The whole protocol from creation: with n more handles opened, delete
      only marks the array pending, every later open fails, and the array is
      deleted by the n+1-th close and by no earlier one. */
  lemma {:induction false} DeleteWhileOpen(n: nat)
    ensures Delete(OpenTimes(Created(), n)).Ok?
    ensures Delete(OpenTimes(Created(), n)).value.pendingDelete
    ensures !Delete(OpenTimes(Created(), n)).value.deleted
    ensures Delete(OpenTimes(Created(), n)).value.fileRc == n + 1
    ensures Open(Delete(OpenTimes(Created(), n)).value) == Err(PendingDeletion)
    ensures CloseTimes(Delete(OpenTimes(Created(), n)).value, n + 1).deleted
    ensures forall k :: 0 <= k <= n ==> !CloseTimes(Delete(OpenTimes(Created(), n)).value, k).deleted
  {
    var atOpen := OpenTimes(Created(), n);
    OpenTimesCounts(n);
    var d := Delete(atOpen).value;
    DeferredDeleteAtLastClose(d, n + 1);
    forall k | 0 <= k <= n
      ensures !CloseTimes(d, k).deleted
    {
      DeferredDeleteAtLastClose(d, k);
    }
  }

  /** The state after k successive successful opens (stopping at a failure). */
  function OpenTimes(s: RefState, k: nat): (r: RefState)
    decreases k
  {
    if k == 0 then s
    else match Open(s)
      case Ok(t) => OpenTimes(t, k - 1)
      case Err(_) => s
  }

  /** From creation, n opens all succeed and leave n + 1 file references. */
  lemma {:induction false} OpenTimesCounts(n: nat)
    ensures OpenTimes(Created(), n) == RefState(n + 1, false, false)
  {
    OpenTimesFrom(RefState(1, false, false), n);
  }

  lemma {:induction false} OpenTimesFrom(s: RefState, n: nat)
    requires !s.pendingDelete && !s.deleted
    ensures OpenTimes(s, n) == s.(fileRc := s.fileRc + n)
    decreases n
  {
    if n > 0 {
      OpenTimesFrom(s.(fileRc := s.fileRc + 1), n - 1);
    }
  }
}
