/** The value types of the map-ip writer: a directional address translation and the
    watch event that carries one. */
module Translations {

  /** A directional translation between two address strings. The addresses are not
      validated; (a, b) and (b, a) are different translations unless a == b. */
  datatype Translation = Translation(from: string, to: string)

  /** The kinds of watch event a translation can arrive with. The writer only tells
      Deleted apart; every other kind is an upsert. */
  datatype EventType = Added | Modified | Deleted | Bookmark | Error

  /** A translation tagged with the kind of change that produced it. */
  datatype Event = Event(translation: Translation, kind: EventType)

  /** The translation with its two addresses swapped. */
  function Reverse(t: Translation): Translation
  {
    Translation(t.to, t.from)
  }

  /** Reverse swaps From and To. */
  lemma ReverseSwaps(t: Translation)
    ensures Reverse(t).from == t.to && Reverse(t).to == t.from
  {
  }

  /** Reverse is an involution. */
  lemma ReverseInvolutive(t: Translation)
    ensures Reverse(Reverse(t)) == t
  {
  }

  /** A translation is its own reverse exactly when it is a self-loop. */
  lemma ReverseFixedIffSelfLoop(t: Translation)
    ensures Reverse(t) == t <==> t.from == t.to
  {
  }
}
