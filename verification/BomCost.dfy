/** The bill of materials as an object: lists of line items that are replaced and updated in place. */
module BomCost {
  import opened Options
  import opened Ledger

  class LineItem {
    var title: string
    var service: string
    var product: string
    var quantity: real
    var unit: Option<string>
    var unitPrice: real
    var totalPrice: real

    function View(): Item
      reads this
    {
      Item(title, Key(service, product), quantity, unit, unitPrice, totalPrice)
    }

    constructor (item: Item)
      ensures View() == item
    {
      title, service, product := item.title, item.key.service, item.key.product;
      quantity, unit, unitPrice, totalPrice := item.quantity, item.unit, item.unitPrice, item.totalPrice;
    }

    method Replace(with: LineItem)
      modifies this
      ensures View() == old(with.View())
    {
      title, service, product := with.title, with.service, with.product;
      quantity, unit, unitPrice, totalPrice := with.quantity, with.unit, with.unitPrice, with.totalPrice;
    }

    method Update(with: LineItem)
      modifies this
      ensures View() == Updated(old(View()), old(with.View()))
    {
      quantity := with.quantity;
      totalPrice := quantity * unitPrice;
    }
  }

  ghost predicate Distinct(items: seq<LineItem>) {
    forall i, j | 0 <= i < j < |items| :: items[i] != items[j]
  }

  function Views(items: seq<LineItem>): (views: seq<Item>)
    reads items
    ensures |views| == |items|
  {
    seq(|items|, i requires 0 <= i < |items| reads items => items[i].View())
  }

  /** The first item with the key and its position, or the length of the list. */
  method GetLineItem(items: seq<LineItem>, service: string, product: string) returns (index: nat)
    ensures index == Find(Views(items), Key(service, product))
  {
    index := 0;
    while index < |items|
      invariant 0 <= index <= |items|
      invariant forall j | 0 <= j < index :: Views(items)[j].key != Key(service, product)
    {
      if items[index].service == service && items[index].product == product {
        FindIs(Views(items), Key(service, product), index);
        return;
      }
      index := index + 1;
    }
    FindIs(Views(items), Key(service, product), index);
  }

  /** Changes the item with the key of `built` in place, or appends a new item to the list. */
  method PutItem(items: seq<LineItem>, update: bool, built: Item) returns (after: seq<LineItem>)
    requires Distinct(items)
    modifies items
    ensures Views(after) == Put(old(Views(items)), update, built)
    ensures Distinct(after) && forall x | x in after :: x in items || fresh(x)
  {
    var item := new LineItem(built);
    var index := GetLineItem(items, item.service, item.product);
    if index < |items| {
      after := items;
      if update {
        items[index].Update(item);
      } else {
        items[index].Replace(item);
      }
    } else {
      after := items + [item];
    }
  }

  /** The list without the item at the position of the key; the list itself when there is none. */
  method DeleteItem(items: seq<LineItem>, service: string, product: string) returns (index: nat, after: seq<LineItem>)
    requires Distinct(items)
    ensures index == Find(Views(items), Key(service, product))
    ensures Views(after) == Remove(Views(items), Key(service, product))
    ensures Distinct(after) && forall x | x in after :: x in items
  {
    index := GetLineItem(items, service, product);
    if index < |items| {
      after := items[..index] + items[index + 1..];
      assert Views(after) == Views(items)[..index] + Views(items)[index + 1..];
    } else {
      after := items;
    }
  }

  method AddUp(items: seq<LineItem>) returns (sum: real)
    ensures sum == Sum(Views(items))
  {
    sum := 0.0;
    var k := 0;
    while k < |items|
      invariant 0 <= k <= |items|
      invariant sum == Sum(Views(items)[..k])
    {
      assert Views(items)[..k + 1][..k] == Views(items)[..k];
      sum := sum + items[k].totalPrice;
      k := k + 1;
    }
    assert Views(items)[..k] == Views(items);
  }

  /** Items that keep their fields keep their view. */
  twostate lemma ViewsUnchanged(items: seq<LineItem>)
    requires forall x | x in items :: unchanged(x)
    ensures Views(items) == old(Views(items))
  {
    forall i | 0 <= i < |items| ensures items[i].View() == old(items[i].View()) {
      assert items[i] in items;
    }
  }

  ghost function OptionalViews(items: Option<seq<LineItem>>): Option<seq<Item>>
    reads OrNone(items)
  {
    if items.Some? then Some(Views(items.value)) else None
  }

  function OrNone(items: Option<seq<LineItem>>): seq<LineItem> {
    if items.Some? then items.value else []
  }

  class Cost {
    var lineItems: Option<seq<LineItem>>
    var lineItemsTotal: Option<real>
    var savings: Option<seq<LineItem>>
    var savingsTotal: Option<real>
    var total: Option<real>

    ghost predicate Valid()
      reads this
    {
      && Distinct(OrNone(lineItems)) && Distinct(OrNone(savings))
      && forall x | x in OrNone(lineItems) :: x !in OrNone(savings)
    }

    ghost function View(): Ledger
      reads this, OrNone(lineItems), OrNone(savings)
    {
      Ledger(OptionalViews(lineItems), lineItemsTotal, OptionalViews(savings), savingsTotal, total)
    }

    constructor ()
      ensures Valid() && View() == FRESH
    {
      lineItems, lineItemsTotal, savings, savingsTotal, total := None, None, None, None, None;
    }

    method ComputeTotal() returns (r: Result<bool, Error>)
      modifies this`lineItemsTotal, this`savingsTotal, this`total
      ensures (View(), r) == Recompute(old(View()))
    {
      if lineItems.None? {
        lineItemsTotal := Some(0.0);
        ViewsUnchanged(OrNone(savings));
        return Err(LineItemsUnset);
      }
      var lines := AddUp(lineItems.value);
      if savings.None? {
        lineItemsTotal, total := Some(lines), Some(lines);
      } else {
        var saved := AddUp(savings.value);
        lineItemsTotal, savingsTotal, total := Some(lines), Some(saved), Some(lines - saved);
        ViewsUnchanged(OrNone(savings));
      }
      ViewsUnchanged(OrNone(lineItems));
      r := Ok(true);
    }

    method AddLineItem(update: bool, params: Params) returns (r: Result<bool, Error>)
      requires Valid()
      modifies this, OrNone(lineItems)
      ensures Valid() && savings == old(savings)
      ensures forall x | x in OrNone(lineItems) :: x in old(OrNone(lineItems)) || fresh(x)
      ensures (View(), r) == Apply(old(View()), Operation.AddLineItem(update, params))
    {
      var built := BuildItem(params);
      if built.Err? {
        return Err(built.error);
      }
      ghost var before := View();
      assert OrEmpty(before.lineItems) == Views(OrNone(lineItems));
      var items := PutItem(OrNone(lineItems), update, built.value);
      lineItems := Some(items);
      ViewsUnchanged(OrNone(savings));
      assert View() == before.(lineItems := Some(Put(OrEmpty(before.lineItems), update, built.value)));
      r := ComputeTotal();
    }

    method RemoveLineItem(service: string, product: string) returns (r: Result<bool, Error>)
      requires Valid()
      modifies this
      ensures Valid() && savings == old(savings)
      ensures forall x | x in OrNone(lineItems) :: x in old(OrNone(lineItems))
      ensures (View(), r) == Apply(old(View()), Operation.RemoveLineItem(Key(service, product)))
    {
      ghost var before := View();
      assert OrEmpty(before.lineItems) == Views(OrNone(lineItems));
      var index, items := DeleteItem(OrNone(lineItems), service, product);
      if index == |OrNone(lineItems)| {
        return Ok(false);
      }
      lineItems := Some(items);
      ViewsUnchanged(OrNone(savings));
      assert View() == before.(lineItems := Some(Remove(OrEmpty(before.lineItems), Key(service, product))));
      r := ComputeTotal();
    }

    method AddSavings(update: bool, params: Params) returns (r: Result<bool, Error>)
      requires Valid()
      modifies this, OrNone(savings)
      ensures Valid() && lineItems == old(lineItems)
      ensures forall x | x in OrNone(savings) :: x in old(OrNone(savings)) || fresh(x)
      ensures (View(), r) == Apply(old(View()), Operation.AddSavings(update, params))
    {
      var built := BuildItem(params);
      if built.Err? {
        return Err(built.error);
      }
      ghost var before := View();
      assert OrEmpty(before.savings) == Views(OrNone(savings));
      var items := PutItem(OrNone(savings), update, built.value);
      savings := Some(items);
      ViewsUnchanged(OrNone(lineItems));
      assert View() == before.(savings := Some(Put(OrEmpty(before.savings), update, built.value)));
      r := ComputeTotal();
    }

    method RemoveSavings(service: string, product: string) returns (r: Result<bool, Error>)
      requires Valid()
      modifies this
      ensures Valid() && lineItems == old(lineItems)
      ensures forall x | x in OrNone(savings) :: x in old(OrNone(savings))
      ensures (View(), r) == Apply(old(View()), Operation.RemoveSavings(Key(service, product)))
    {
      ghost var before := View();
      assert OrEmpty(before.savings) == Views(OrNone(savings));
      var index, items := DeleteItem(OrNone(savings), service, product);
      if index == |OrNone(savings)| {
        return Ok(false);
      }
      savings := Some(items);
      ViewsUnchanged(OrNone(lineItems));
      assert View() == before.(savings := Some(Remove(OrEmpty(before.savings), Key(service, product))));
      r := ComputeTotal();
    }
  }
}
