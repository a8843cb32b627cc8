/**
 * The lightbox's keydown handler: a switch from the key name to at most one
 * callback on the component's owner.
 */
module KeyDispatch {
  import opened Navigation

  /** A callback invoked on the owner: `onClose()` or `onNavigate(index)`. */
  datatype Event = Close | Navigate(index: int)

  const Escape: string := "Escape"
  const ArrowLeft: string := "ArrowLeft"
  const ArrowRight: string := "ArrowRight"

  /** The keys the handler reacts to; every other key falls through the switch. */
  const HandledKeys: set<string> := {Escape, ArrowLeft, ArrowRight}

  /**
   * The callbacks fired, in order, when the handler bound to current index `i`
   * of `n` images receives `key`.
   */
  function HandleKeyDown(key: string, i: int, n: int): (fired: seq<Event>)
    requires 0 <= i < n
    ensures |fired| <= 1
    ensures fired == [] <==> key !in HandledKeys
    ensures fired == [Close] <==> key == Escape
    ensures Close in fired <==> key == Escape
    ensures key == ArrowLeft ==> fired == [Navigate(Prev(i, n))]
    ensures key == ArrowRight ==> fired == [Navigate(Next(i, n))]
    ensures forall e :: e in fired && e.Navigate? ==> 0 <= e.index < n
  {
    if key == Escape then [Close]
    else if key == ArrowLeft then [Navigate(Prev(i, n))]
    else if key == ArrowRight then [Navigate(Next(i, n))]
    else []
  }

  /** Three images, viewing the first: "previous" proposes the last, "next" the second. */
  lemma ThreeImagesFromFirst()
    ensures HandleKeyDown(ArrowLeft, 0, 3) == [Navigate(2)]
    ensures HandleKeyDown(ArrowRight, 0, 3) == [Navigate(1)]
  {
  }

  /** Three images, viewing the last: "next" proposes the first. */
  lemma ThreeImagesFromLast()
    ensures HandleKeyDown(ArrowRight, 2, 3) == [Navigate(0)]
  {
  }
}
