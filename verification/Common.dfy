/** What several components share: optional values, and small facts about numbers and sequences. */
module Common {

  datatype Option<+T> = None | Some(value: T)

  function Least(m: nat, n: nat): nat {
    if m <= n then m else n
  }

  lemma Grouping<T>(a: seq<T>, b: seq<T>, c: seq<T>)
    ensures (a + b) + c == a + (b + c)
  {
  }
}
