/** What several of the modules need. */
module Common {

  datatype Option<T> = None | Some(value: T)

  /** Written out by a quantifier, a predicate is passed on as a whole and only taken apart where the
      trigger is mentioned. */
  ghost predicate Unfold(u: bool) { true }

  function Pow2(k: nat): (p: nat)
    ensures p > 0
  {
    if k == 0 then 1 else 2 * Pow2(k - 1)
  }

  lemma {:induction false} Pow2Grows(a: nat, b: nat)
    requires a <= b
    ensures Pow2(a) <= Pow2(b)
  {
    if a < b {
      Pow2Grows(a, b - 1);
    }
  }

  lemma Assoc<T>(a: seq<T>, b: seq<T>, c: seq<T>)
    ensures (a + b) + c == a + (b + c)
  {
  }
}
