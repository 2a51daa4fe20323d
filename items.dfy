/** The collectable items of classes/Item.py: five kinds with fixed point values. */
module Items {
  import opened Positions

  datatype ItemKind = Person | Weapon | Clothing | Food | Heal

  /** An item is its kind and its position; the value is fixed by the kind at construction. */
  datatype Item = Item(kind: ItemKind, position: Pos)
  {
    /** The points an item is worth when delivered to base. */
    function value(): (v: nat)
      ensures kind == Person || kind == Weapon ==> v == 50
      ensures kind == Clothing ==> v == 5
      ensures kind == Food ==> v == 10
      ensures kind == Heal ==> v == 20
    {
      match kind
      case Person => 50
      case Weapon => 50
      case Clothing => 5
      case Food => 10
      case Heal => 20
    }
  }

  /** Total value of a cargo list, as summed by the base unloading code. */
  function SumValues(load: seq<Item>): int
  {
    if load == [] then 0 else SumValues(load[..|load| - 1]) + load[|load| - 1].value()
  }

  lemma {:induction false} SumValuesAppend(a: seq<Item>, b: seq<Item>)
    ensures SumValues(a + b) == SumValues(a) + SumValues(b)
    decreases |b|
  {
    if b == [] {
      assert a + b == a;
    } else {
      var b' := b[..|b| - 1];
      assert (a + b)[..|a + b| - 1] == a + b';
      SumValuesAppend(a, b');
    }
  }

  /** Every cargo list is worth at least nothing: values are never negative. */
  lemma {:induction false} SumValuesNonNegative(load: seq<Item>)
    ensures SumValues(load) >= 0
    decreases |load|
  {
    if load != [] {
      SumValuesNonNegative(load[..|load| - 1]);
    }
  }
}
