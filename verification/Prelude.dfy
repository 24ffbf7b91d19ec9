/** Small notions that several parts share. */
module Prelude {
  /** A null pointer, a missing answer, a failed decoding. */
  datatype Option<+T> = None | Some(value: T)

  function Concat<T>(parts: seq<seq<T>>): seq<T> {
    if parts == [] then [] else parts[0] + Concat(parts[1..])
  }

  lemma {:induction false} Associative<T>(a: seq<T>, b: seq<T>, c: seq<T>)
    ensures (a + b) + c == a + (b + c)
  {
  }

  lemma {:induction false} EmptyFirst<T>(s: seq<T>)
    ensures [] + s == s
  {
  }

  lemma {:induction false} HeadTail<T>(x: T, rest: seq<T>, more: seq<T>)
    ensures (([x] + rest) + more)[0] == x && (([x] + rest) + more)[1..] == rest + more
  {
  }
}
