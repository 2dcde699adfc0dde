/** Items with a true, unbounded number that is known to the sender only: the highest number received,
    and the items that were newer than everything before them. */
module Newest {
  /** The highest true number seen, -1 before the first item. */
  function Highest<T>(number: T -> nat, high: int, items: seq<T>): (h: int)
    ensures h >= high
  {
    if items == [] then high
    else
      var h := Highest(number, high, items[..|items| - 1]);
      var t := number(items[|items| - 1]);
      if t > h then t else h
  }

  /** Every item is less than half the number space away from the highest one before it. */
  predicate Windowed<T>(number: T -> nat, half: int, high: int, items: seq<T>) {
    forall i :: 0 <= i < |items| ==> Near(half, Highest(number, high, items[..i]), number(items[i]))
  }

  predicate Near(half: int, high: int, t: nat) {
    high < 0 || -half <= t - high < half
  }

  /** The items whose true number exceeds all earlier ones. */
  function Records<T>(number: T -> nat, high: int, items: seq<T>): seq<T> {
    if items == [] then []
    else
      var before, f := items[..|items| - 1], items[|items| - 1];
      Records(number, high, before) + (if number(f) > Highest(number, high, before) then [f] else [])
  }

  /** One more item. */
  lemma NewestSnoc<T>(number: T -> nat, half: int, high: int, items: seq<T>, x: T)
    ensures var h := Highest(number, high, items);
            && Highest(number, high, items + [x]) == (if number(x) > h then number(x) else h)
            && Records(number, high, items + [x]) == Records(number, high, items) + (if number(x) > h then [x] else [])
            && (Windowed(number, half, high, items + [x]) ==>
                  Windowed(number, half, high, items) && Near(half, h, number(x)))
  {
    var more := items + [x];
    assert more[..|items|] == items;
    if Windowed(number, half, high, more) {
      assert Near(half, Highest(number, high, more[..|items|]), number(more[|items|]));
      forall i | 0 <= i < |items| ensures Near(half, Highest(number, high, items[..i]), number(items[i])) {
        assert more[..i] == items[..i];
        assert Near(half, Highest(number, high, more[..i]), number(more[i]));
      }
    }
  }

  /** True numbers that all lie within half the number space keep the window. */
  lemma NarrowIsWindowed<T>(number: T -> nat, half: int, items: seq<T>, low: nat)
    requires forall i :: 0 <= i < |items| ==> low <= number(items[i]) <= low + half - 1
    ensures Windowed(number, half, -1, items)
  {
    forall i | 0 <= i < |items| ensures Near(half, Highest(number, -1, items[..i]), number(items[i])) {
      HighestBounds(number, half, items[..i], low);
    }
  }

  lemma {:induction false} HighestBounds<T>(number: T -> nat, half: int, items: seq<T>, low: nat)
    requires forall i :: 0 <= i < |items| ==> low <= number(items[i]) <= low + half - 1
    ensures Highest(number, -1, items) == -1 || low <= Highest(number, -1, items) <= low + half - 1
  {
    if items != [] {
      HighestBounds(number, half, items[..|items| - 1], low);
    }
  }

  predicate Increasing<T>(number: T -> nat, high: int, items: seq<T>) {
    && (forall i :: 0 <= i < |items| ==> high < number(items[i]))
    && (forall i, j :: 0 <= i < j < |items| ==> number(items[i]) < number(items[j]))
  }

  lemma IncreasingSnoc<T>(number: T -> nat, high: int, items: seq<T>, f: T)
    requires Increasing(number, high, items)
    requires number(f) > if items == [] then high else number(items[|items| - 1])
    ensures Increasing(number, high, items + [f])
  {
    var all := items + [f];
    forall i | 0 <= i < |all| ensures high < number(all[i]) && number(all[i]) <= number(f) {}
  }

  /** These items come in strictly increasing order and end in the newest one received. */
  lemma {:induction false} RecordsIncrease<T>(number: T -> nat, high: int, items: seq<T>)
    ensures Increasing(number, high, Records(number, high, items))
    ensures var kept := Records(number, high, items);
            Highest(number, high, items) == if kept == [] then high else number(kept[|kept| - 1])
  {
    if items != [] {
      var before, f := items[..|items| - 1], items[|items| - 1];
      RecordsIncrease(number, high, before);
      if number(f) > Highest(number, high, before) {
        IncreasingSnoc(number, high, Records(number, high, before), f);
      } else {
        assert Records(number, high, before) + [] == Records(number, high, before);
      }
    }
  }

  /** When nothing is late or repeated, nothing that arrives is skipped. */
  lemma {:induction false} InOrderKeepsAll<T>(number: T -> nat, high: int, items: seq<T>)
    requires Increasing(number, high, items)
    ensures Records(number, high, items) == items
  {
    if items != [] {
      var before := items[..|items| - 1];
      InOrderKeepsAll(number, high, before);
      RecordsIncrease(number, high, before);
      hide Increasing;
      assert number(items[|items| - 1]) > Highest(number, high, before);
      assert items == before + [items[|items| - 1]];
    }
  }
}
