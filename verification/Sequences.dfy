// Regroupings of concatenations, used wherever bytes are written or read piece by piece.
module Sequences {
  lemma Associative<T>(x: seq<T>, y: seq<T>, z: seq<T>)
    ensures x + y + z == x + (y + z)
  {
  }

  /** What follows the head of three parts. */
  lemma Headed<T>(head: seq<T>, body: seq<T>, rest: seq<T>)
    ensures head + body + rest == head + (body + rest) && (head + (body + rest))[|head|..] == body + rest
  {
  }
}
