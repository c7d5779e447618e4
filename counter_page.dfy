/** The counter of the page in my-app/: a count that goes up without bound,
    down only while positive, back to zero on reset, driven by buttons and
    by the arrow and R keys. Only the count updates are modelled: every
    toast call on that page reaches the zero-argument `showMessage`, which
    calls itself without end, after the count has already changed. */
module CounterPage {

  /** decrement: down one while positive. */
  function Decremented(c: int): (d: int)
    ensures c >= 0 ==> d >= 0
    ensures d == c || d == c - 1
  {
    if c > 0 then c - 1 else c
  }

  /** What a key does to the count: ArrowUp adds one, ArrowDown steps down,
      'r' and 'R' reset; every other key, space included, changes nothing. */
  function AfterKey(c: int, key: string): (d: int)
    ensures c >= 0 ==> d >= 0
  {
    if key == "ArrowUp" then c + 1
    else if key == "ArrowDown" then Decremented(c)
    else if key == "r" || key == "R" then 0
    else c
  }

  /** The module-level `let count`. */
  class Counter {
    var count: int

    ghost predicate Valid()
      reads this
    {
      count >= 0
    }

    constructor ()
      ensures count == 0 && Valid()
    {
      count := 0;
    }

    method Increment()
      modifies this
      ensures count == old(count) + 1
      ensures Valid() <== old(Valid())
    {
      count := count + 1;
    }

    method Decrement()
      modifies this
      ensures count == Decremented(old(count))
      ensures Valid() <== old(Valid())
    {
      if count > 0 {
        count := count - 1;
      }
    }

    method Reset()
      modifies this
      ensures count == 0 && Valid()
    {
      count := 0;
    }

    /** The keydown handler's switch; returns whether the default action was
        prevented, which only space does. */
    method HandleKey(key: string) returns (prevented: bool)
      modifies this
      ensures count == AfterKey(old(count), key)
      ensures prevented <==> key == " "
      ensures Valid() <== old(Valid())
    {
      prevented := false;
      match key
      case "ArrowUp" => Increment();
      case "ArrowDown" => Decrement();
      case "r" => Reset();
      case "R" => Reset();
      case " " => prevented := true;
      case _ =>
    }
  }

  /** The count after a run of key presses. */
  function AfterKeys(c: int, keys: seq<string>): int
    decreases |keys|
  {
    if keys == [] then c else AfterKeys(AfterKey(c, keys[0]), keys[1..])
  }

  /** Whatever keys are pressed, the count is never negative. */
  lemma {:induction false} AfterKeysNonNegative(c: int, keys: seq<string>)
    requires c >= 0
    ensures AfterKeys(c, keys) >= 0
    decreases |keys|
  {
    if keys != [] {
      AfterKeysNonNegative(AfterKey(c, keys[0]), keys[1..]);
    }
  }

  /** Incrementing has no upper bound: n presses of ArrowUp add n. */
  lemma {:induction false} ArrowUpsAdd(c: int, n: nat)
    ensures AfterKeys(c, seq(n, _ => "ArrowUp")) == c + n
    decreases n
  {
    if n > 0 {
      var rest := seq(n - 1, _ => "ArrowUp");
      assert seq(n, _ => "ArrowUp")[1..] == rest;
      assert seq(n, _ => "ArrowUp")[0] == "ArrowUp";
      ArrowUpsAdd(c + 1, n - 1);
    }
  }

  /** Decrementing stops at zero, and undoes an increment. */
  lemma DecrementFacts(c: int)
    requires c >= 0
    ensures Decremented(c) == 0 <==> c <= 1
    ensures Decremented(c + 1) == c
  {
  }

  /** A reset forgets everything before it. */
  lemma {:induction false} ResetForgets(c1: int, c2: int, before: seq<string>, after: seq<string>)
    ensures AfterKeys(c1, before + ["r"] + after) == AfterKeys(0, after)
    ensures AfterKeys(c1, before + ["R"] + after) == AfterKeys(c2, ["r"] + after)
    decreases |before|
  {
    if before == [] {
      assert [] + ["r"] + after == ["r"] + after;
      assert [] + ["R"] + after == ["R"] + after;
      assert (["r"] + after)[1..] == after;
      assert (["R"] + after)[1..] == after;
    } else {
      assert (before + ["r"] + after)[1..] == before[1..] + ["r"] + after;
      assert (before + ["R"] + after)[1..] == before[1..] + ["R"] + after;
      ResetForgets(AfterKey(c1, before[0]), c2, before[1..], after);
    }
  }
}
