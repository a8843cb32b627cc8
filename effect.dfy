/**
 * The keyboard effect's lifecycle. While the lightbox is open, its effect adds a
 * keydown listener to the document and locks page scroll. The teardown it
 * returns removes that listener and resets the lock. React runs the held
 * teardown before each re-run of the effect and on unmount.
 */
module KeyboardEffect {
  import opened Wrappers
  import opened KeyDispatch

  /**
   * One `handleKeyDown` closure. Every run of the effect creates a fresh one
   * (`id`), bound to the current index and the number of images it was created with.
   */
  datatype Handler = Handler(id: nat, index: int, count: int)

  /** A handler whose bound index is a valid position among its images. */
  predicate InRange(h: Handler) {
    0 <= h.index < h.count
  }

  /** `removeEventListener`: the listener list without `h`. */
  function Without(ls: seq<Handler>, h: Handler): (r: seq<Handler>)
    ensures forall x :: x in r <==> x in ls && x != h
    ensures |r| <= |ls|
  {
    if ls == [] then [] else (if ls[0] == h then [] else [ls[0]]) + Without(ls[1..], h)
  }

  /** Removing a listener that was never added changes nothing. */
  lemma {:induction false} WithoutAbsent(ls: seq<Handler>, h: Handler)
    requires h !in ls
    ensures Without(ls, h) == ls
  {
    if ls != [] {
      WithoutAbsent(ls[1..], h);
      assert ls == [ls[0]] + ls[1..];
    }
  }

  /** Removing the listener just added restores the list to what it was before the add. */
  lemma {:induction false} WithoutAfterAdd(ls: seq<Handler>, h: Handler)
    requires h !in ls
    ensures Without(ls + [h], h) == ls
  {
    if ls == [] {
      assert [h][1..] == [];
    } else {
      assert (ls + [h])[1..] == ls[1..] + [h];
      WithoutAfterAdd(ls[1..], h);
      assert ls == [ls[0]] + ls[1..];
    }
  }

  /** The callbacks fired when the document dispatches `key` to every listener, in order. */
  function Dispatch(ls: seq<Handler>, key: string): (fired: seq<Event>)
    requires forall h :: h in ls ==> InRange(h)
    ensures |fired| <= |ls|
    ensures key !in HandledKeys ==> fired == []
  {
    if ls == [] then []
    else
      assert ls[0] in ls && InRange(ls[0]);
      HandleKeyDown(key, ls[0].index, ls[0].count) + Dispatch(ls[1..], key)
  }

  /** With a single listener, a keypress fires exactly what that listener's handler fires. */
  lemma DispatchSingle(h: Handler, key: string)
    requires InRange(h)
    ensures Dispatch([h], key) == HandleKeyDown(key, h.index, h.count)
  {
    assert [h][1..] == [];
  }

  /**
   * The page the lightbox runs in: the document's keydown listeners, the body's
   * `overflow` style, the owner callbacks fired so far, the identity of the next
   * closure, and the teardown React holds for the last run of the effect.
   */
  class Page {
    var listeners: seq<Handler>
    var overflow: string
    var fired: seq<Event>
    var nextId: nat
    var teardown: Option<Handler>

    /**
     * Between commits: with no teardown held the lightbox has no listener; with
     * one held, exactly that listener is registered and scroll is locked.
     */
    ghost predicate Valid()
      reads this
    {
      match teardown
      case None => listeners == []
      case Some(h) => listeners == [h] && overflow == "hidden" && InRange(h) && h.id < nextId
    }

    /** A page whose body style starts as `bodyOverflow`, before the lightbox first mounts. */
    constructor (bodyOverflow: string)
      ensures Valid()
      ensures listeners == [] && overflow == bodyOverflow && fired == [] && teardown == None
    {
      listeners, overflow, fired, nextId, teardown := [], bodyOverflow, [], 0, None;
    }

    /**
     * The effect body. Closed: returns no teardown and touches nothing. Open:
     * adds one fresh listener, sets overflow to "hidden", and returns the
     * handler its teardown will remove.
     */
    method Activate(isOpen: bool, currentIndex: int, count: int) returns (t: Option<Handler>)
      requires isOpen ==> 0 <= currentIndex < count
      requires forall l :: l in listeners ==> l.id < nextId
      modifies this`listeners, this`overflow, this`nextId
      ensures !isOpen ==> t == None && listeners == old(listeners) && overflow == old(overflow) && nextId == old(nextId)
      ensures isOpen ==> t == Some(Handler(old(nextId), currentIndex, count)) && InRange(t.value)
      ensures isOpen ==> t.value !in old(listeners) && forall l :: l in listeners ==> l.id < nextId
      ensures isOpen ==> listeners == old(listeners) + [t.value] && overflow == "hidden" && nextId == old(nextId) + 1
    {
      if !isOpen {
        return None;
      }
      var h := Handler(nextId, currentIndex, count);
      nextId := nextId + 1;
      listeners := listeners + [h];
      overflow := "hidden";
      t := Some(h);
    }

    /** The teardown: removes `h` and resets overflow to "", whatever it was before the effect ran. */
    method Cleanup(h: Handler)
      modifies this`listeners, this`overflow
      ensures listeners == Without(old(listeners), h) && overflow == ""
    {
      listeners := Without(listeners, h);
      overflow := "";
    }

    /**
     * A render that re-runs the effect: React first runs the teardown it holds,
     * then the effect body, and keeps the teardown that returns.
     */
    method Commit(isOpen: bool, currentIndex: int, count: int)
      requires Valid()
      requires isOpen ==> 0 <= currentIndex < count
      modifies this
      ensures Valid()
      ensures |listeners| <= 1
      ensures listeners == (if isOpen then [Handler(old(nextId), currentIndex, count)] else [])
      ensures teardown == (if isOpen then Some(Handler(old(nextId), currentIndex, count)) else None)
      ensures overflow == (if isOpen then "hidden" else if old(teardown).Some? then "" else old(overflow))
      ensures fired == old(fired)
    {
      if teardown.Some? {
        Cleanup(teardown.value);
        assert listeners == [];
      }
      var t := Activate(isOpen, currentIndex, count);
      teardown := t;
    }

    /** Unmount: React runs the teardown it holds, if any. */
    method Unmount()
      requires Valid()
      modifies this
      ensures Valid()
      ensures listeners == [] && teardown == None && fired == old(fired)
      ensures overflow == (if old(teardown).Some? then "" else old(overflow))
    {
      if teardown.Some? {
        Cleanup(teardown.value);
        teardown := None;
      }
    }

    /** A keydown on the document: every registered listener handles it, so at most one callback fires. */
    method KeyDown(key: string)
      requires Valid()
      modifies this`fired
      ensures fired == old(fired) + Dispatch(listeners, key)
      ensures teardown == None ==> fired == old(fired)
      ensures teardown.Some? ==> fired == old(fired) + HandleKeyDown(key, teardown.value.index, teardown.value.count)
      ensures |fired| <= |old(fired)| + 1
    {
      assert forall h :: h in listeners ==> InRange(h);
      fired := fired + Dispatch(listeners, key);
      if teardown.Some? {
        DispatchSingle(teardown.value, key);
      }
    }
  }

  /** Opening, closing and reopening leaves one listener, so Escape fires `onClose` once. */
  method ReopenFiresOnce() returns (fired: seq<Event>)
    ensures fired == [Close]
  {
    var page := new Page("");
    page.Commit(true, 0, 3);
    page.Commit(false, 0, 3);
    page.Commit(true, 0, 3);
    page.KeyDown(Escape);
    fired := page.fired;
  }

  /** Moving to another image re-runs the effect; the new listener proposes from the new index. */
  method NavigateRebinds() returns (fired: seq<Event>)
    ensures fired == [Navigate(1), Navigate(2)]
  {
    var page := new Page("");
    page.Commit(true, 0, 3);
    page.KeyDown(ArrowRight);
    page.Commit(true, 1, 3);
    page.KeyDown(ArrowRight);
    fired := page.fired;
  }

  /** Closing resets overflow to "" rather than restoring the page's earlier value. */
  method OverflowNotRestored(bodyOverflow: string) returns (after: string)
    ensures after == ""
  {
    var page := new Page(bodyOverflow);
    page.Commit(true, 0, 1);
    page.Commit(false, 0, 1);
    after := page.overflow;
  }

  /** While closed, a keypress fires nothing and the page's overflow is left alone. */
  method ClosedIsInert(bodyOverflow: string, key: string) returns (fired: seq<Event>, after: string)
    ensures fired == [] && after == bodyOverflow
  {
    var page := new Page(bodyOverflow);
    page.Commit(false, 0, 0);
    page.KeyDown(key);
    fired, after := page.fired, page.overflow;
  }
}
