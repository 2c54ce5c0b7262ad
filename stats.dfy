/** The figures the Stats footer shows for a list: how many items there are,
    how many are packed (`items.filter(item => item.packed).length`) and the
    packed share as a whole percentage. */
module Stats {
  import opened Seqs
  import opened Items

  /** The filter predicate of the packed count. */
  function IsPacked(item: Item): bool
  {
    item.packed
  }

  /** `total ? Math.round((packed / total) * 100) : 0`, in integers. Math.round
      rounds halves up, so for total > 0 the result is the integer nearest to
      100 * packed / total, a tie going to the larger one. */
  function Percentage(packed: nat, total: nat): (r: nat)
    ensures total == 0 ==> r == 0
    ensures total > 0 ==> 200 * packed - total < 2 * total * r <= 200 * packed + total
    ensures packed <= total ==> r <= 100
  {
    if total == 0 then 0
    else
      RoundHalfUp(packed, total);
      (200 * packed + total) / (2 * total)
  }

  /** The integer quotient that implements the rounding brackets the exact
      percentage, and stays at most 100 for a share of at most one. */
  lemma RoundHalfUp(packed: nat, total: nat)
    requires total > 0
    ensures var r := (200 * packed + total) / (2 * total);
      && 200 * packed - total < 2 * total * r <= 200 * packed + total
      && (packed <= total ==> r <= 100)
  {
    var a, b := 200 * packed + total, 2 * total;
    var q := a / b;
    DivBounds(a, b);
    if packed <= total && q > 100 {
      MulMonotone(b, 101, q);
    }
  }

  /** Euclidean division brackets its dividend between two multiples of the divisor. */
  lemma DivBounds(a: nat, b: nat)
    requires b > 0
    ensures b * (a / b) <= a < b * (a / b) + b
  {
  }

  /** Multiplying by a natural number is monotone. */
  lemma MulMonotone(b: nat, x: nat, y: nat)
    requires x <= y
    ensures b * x <= b * y
  {
  }

  /** Nothing packed shows 0%. */
  lemma PercentageNonePacked(total: nat)
    ensures Percentage(0, total) == 0
  {
  }

  /** Everything packed in a non-empty list shows 100%. */
  lemma PercentageAllPacked(total: nat)
    ensures total > 0 ==> Percentage(total, total) == 100
  {
    var r := Percentage(total, total);
    if total > 0 && r < 100 {
      MulMonotone(2 * total, r, 99);
    }
  }

  /** What the footer shows. */
  datatype Summary = Summary(totalItems: nat, packedItems: nat, packedPercentage: nat)

  /** `items.filter(item => item.packed).length`: how many items are packed. */
  function PackedItems(items: seq<Item>): (n: nat)
    ensures n == Count(items, IsPacked) && n <= |items|
  {
    FilterLength(items, IsPacked);
    |Filter(items, IsPacked)|
  }

  /** The Stats component's three figures for a list. */
  function ComputeStats(items: seq<Item>): (s: Summary)
    ensures s.totalItems == |items|
    ensures s.packedItems == Count(items, IsPacked) <= s.totalItems
    ensures s.packedPercentage <= 100
    ensures items == [] ==> s.packedPercentage == 0
    ensures s.packedItems == 0 ==> s.packedPercentage == 0
    ensures items != [] && s.packedItems == s.totalItems ==> s.packedPercentage == 100
    ensures items != [] ==>
              && 200 * s.packedItems - s.totalItems < 2 * s.totalItems * s.packedPercentage
              && 2 * s.totalItems * s.packedPercentage <= 200 * s.packedItems + s.totalItems
  {
    var totalItems := |items|;
    var packedItems := PackedItems(items);
    PercentageNonePacked(totalItems);
    PercentageAllPacked(totalItems);
    Summary(totalItems, packedItems, Percentage(packedItems, totalItems))
  }

  /** Adding an item counts one more packed item exactly when the new item
      is packed (never, for an item built by the form). */
  lemma {:induction false} AddPackedItems(items: seq<Item>, newItem: Item)
    ensures PackedItems(Add(items, newItem)) == PackedItems(items) + (if newItem.packed then 1 else 0)
  {
    CountAppend(items, [newItem], IsPacked);
    assert Count([newItem], IsPacked) == (if newItem.packed then 1 else 0) + Count([newItem][1..], IsPacked);
  }

  /** With distinct ids, toggling the id of item k changes the packed count
      by one: down when that item was packed, up when it was not. */
  lemma {:induction false} TogglePackedItems(items: seq<Item>, id: int, k: nat)
    requires UniqueIds(items) && k < |items| && items[k].id == id
    ensures PackedItems(Toggle(items, id)) == PackedItems(items) + (if items[k].packed then -1 else 1)
  {
    var pre, x, post := items[..k], items[k], items[k + 1..];
    assert items == pre + [x] + post;
    assert !HasId(pre, id) by {
      forall i | 0 <= i < |pre| ensures pre[i].id != id {
        assert pre[i] == items[i];
      }
    }
    assert !HasId(post, id) by {
      forall i | 0 <= i < |post| ensures post[i].id != id {
        assert post[i] == items[k + 1 + i];
      }
    }
    ToggleAbsent(pre, id);
    ToggleAbsent(post, id);
    ToggleAppend(pre + [x], post, id);
    ToggleAppend(pre, [x], id);
    var tx := Toggle([x], id);
    assert tx[0].packed == !x.packed;
    CountAppend(pre + [x], post, IsPacked);
    CountAppend(pre, [x], IsPacked);
    CountAppend(pre + tx, post, IsPacked);
    CountAppend(pre, tx, IsPacked);
    assert Count([x], IsPacked) == (if x.packed then 1 else 0) + Count([x][1..], IsPacked);
    assert Count(tx, IsPacked) == (if tx[0].packed then 1 else 0) + Count(tx[1..], IsPacked);
  }

  /** Toggling an id, whether or not ids are distinct: every item carrying
      it flips, so the packed ones among them leave the packed count and the
      unpacked ones join it. */
  lemma {:induction false} ToggleMatchingPacked(items: seq<Item>, id: int)
    ensures var matching := Filter(items, WithId(id));
      PackedItems(Toggle(items, id)) + PackedItems(matching)
      == PackedItems(items) + (|matching| - PackedItems(matching))
  {
    if items != [] {
      var x, rest := items[0], items[1..];
      assert items == [x] + rest;
      ToggleMatchingPacked(rest, id);
      ToggleAppend([x], rest, id);
      FilterAppend([x], rest, WithId(id));
      var tx := Toggle([x], id);
      var fx := Filter([x], WithId(id));
      var frest := Filter(rest, WithId(id));
      CountAppend(tx, Toggle(rest, id), IsPacked);
      CountAppend([x], rest, IsPacked);
      CountAppend(fx, frest, IsPacked);
      assert Count([x], IsPacked) == (if x.packed then 1 else 0) + Count([x][1..], IsPacked);
      assert Count(tx, IsPacked) == (if tx[0].packed then 1 else 0) + Count(tx[1..], IsPacked);
      if x.id == id {
        assert fx == [x];
      } else {
        assert fx == [];
      }
    }
  }

  /** Deleting an id removes every packed item carrying it from the packed
      count. */
  lemma {:induction false} DeletePackedItems(items: seq<Item>, id: int)
    ensures PackedItems(Delete(items, id)) == PackedItems(items) - PackedItems(Filter(items, WithId(id)))
  {
    if items != [] {
      var x, rest := items[0], items[1..];
      assert items == [x] + rest;
      DeletePackedItems(rest, id);
      DeleteKeepsOrder([x], rest, id);
      FilterAppend([x], rest, WithId(id));
      CountAppend([x], Delete(rest, id), IsPacked);
      CountAppend([x], rest, IsPacked);
      assert Count([x], IsPacked) == (if x.packed then 1 else 0) + Count([x][1..], IsPacked);
      if x.id == id {
        assert Filter(items, WithId(id)) == [x] + Filter(rest, WithId(id));
        CountAppend([x], Filter(rest, WithId(id)), IsPacked);
      } else {
        assert Filter(items, WithId(id)) == Filter(rest, WithId(id));
      }
    }
  }

  /** The footer of the seed list: two items, none packed, 0%. */
  lemma InitialStats()
    ensures ComputeStats(InitialItems()) == Summary(2, 0, 0)
  {
  }

  /** One of two items packed shows 50%. */
  lemma HalfPacked(a: Item, b: Item)
    requires a.packed && !b.packed
    ensures ComputeStats([a, b]) == Summary(2, 1, 50)
  {
  }

  /** Rounding can reach 100% before everything is packed: 199 packed items
      out of 200 make 99.5%, which rounds to 100. */
  lemma RoundsUpToFull()
    ensures Percentage(199, 200) == 100
  {
  }
}
