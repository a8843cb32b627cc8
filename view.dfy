/** What the lightbox shows: nothing while closed, otherwise the current image and its counter. */
module View {
  import opened Wrappers
  import opened Navigation

  datatype GalleryImage = GalleryImage(src: string, alt: string, description: string)

  /** The open overlay: the image shown and the counter "position / total". */
  datatype Overlay = Overlay(image: GalleryImage, position: int, total: int)

  /** The render result: `None` stands for the component rendering `null`. */
  function Render(images: seq<GalleryImage>, currentIndex: int, isOpen: bool): (r: Option<Overlay>)
    requires isOpen ==> 0 <= currentIndex < |images|
    ensures r.None? <==> !isOpen
    ensures r.Some? ==> r.value.total == |images|
    ensures r.Some? ==> 1 <= r.value.position <= r.value.total
    ensures r.Some? ==> r.value.image == images[r.value.position - 1]
    ensures r.Some? ==> r.value.position == currentIndex + 1 && r.value.image == images[currentIndex]
  {
    if !isOpen then None
    else Some(Overlay(images[currentIndex], currentIndex + 1, |images|))
  }

  /** After "next" the counter advances by one, wrapping from `n / n` to `1 / n`. */
  lemma CounterAfterNext(images: seq<GalleryImage>, i: int)
    requires 0 <= i < |images|
    ensures Render(images, Next(i, |images|), true).value.position
         == Render(images, i, true).value.position % |images| + 1
  {
  }

  /** After "previous" the counter goes back by one, wrapping from `1 / n` to `n / n`. */
  lemma CounterAfterPrev(images: seq<GalleryImage>, i: int)
    requires 0 <= i < |images|
    ensures Render(images, Prev(i, |images|), true).value.position
         == (Render(images, i, true).value.position - 2) % |images| + 1
  {
  }
}
