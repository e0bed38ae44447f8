/**
 The estimated bill of materials of a job: line items and savings, each keyed by service and
 product, with totals that are recomputed after every change.

 This module gives the meaning of the operations on values; BomCost keeps the lists and their
 items in place and is proved to follow it.
 */
module Ledger {
  import opened Options

  datatype Key = Key(service: string, product: string)

  datatype Item = Item(
    title: string,
    key: Key,
    quantity: real,
    unit: Option<string>,
    unitPrice: real,
    totalPrice: real)

  /** The keyword arguments of an add; a missing one is None. */
  datatype Params = Params(
    title: Option<string>,
    service: Option<string>,
    product: Option<string>,
    quantity: Option<real>,
    unit: Option<string>,
    unitPrice: Option<real>,
    totalPrice: Option<real>)

  datatype Error =
    | MissingParam(name: string)
    | LineItemsUnset           // the totals iterate over a list that was never set

  function BuildItem(p: Params): Result<Item, Error> {
    if p.title.None? then Err(MissingParam("title"))
    else if p.service.None? then Err(MissingParam("service"))
    else if p.product.None? then Err(MissingParam("product"))
    else if p.quantity.None? then Err(MissingParam("quantity"))
    else if p.unitPrice.None? then Err(MissingParam("unit_price"))
    else
      var total := if p.totalPrice.None? then p.unitPrice.value * p.quantity.value else p.totalPrice.value;
      Ok(Item(p.title.value, Key(p.service.value, p.product.value), p.quantity.value, p.unit, p.unitPrice.value, total))
  }

  // ----- Lists of items -----

  /** The position of the first item with the key, or the length of the list. */
  function Find(items: seq<Item>, k: Key): (i: nat)
    ensures i <= |items| && (i < |items| ==> items[i].key == k)
    ensures forall j | 0 <= j < i :: items[j].key != k
  {
    if items == [] || items[0].key == k then 0 else 1 + Find(items[1..], k)
  }

  function Updated(existing: Item, with: Item): Item {
    existing.(quantity := with.quantity, totalPrice := with.quantity * existing.unitPrice)
  }

  /** What an add leaves under the key of `item` when `existing` was there. */
  function Merged(existing: Item, update: bool, item: Item): Item {
    if update then Updated(existing, item) else item
  }

  function Put(items: seq<Item>, update: bool, item: Item): seq<Item> {
    var i := Find(items, item.key);
    if i < |items| then items[i := Merged(items[i], update, item)] else items + [item]
  }

  function Remove(items: seq<Item>, k: Key): seq<Item> {
    var i := Find(items, k);
    if i < |items| then items[..i] + items[i + 1..] else items
  }

  function Sum(items: seq<Item>): real {
    if items == [] then 0.0 else Sum(items[..|items| - 1]) + items[|items| - 1].totalPrice
  }

  // ----- The ledger -----

  datatype Ledger = Ledger(
    lineItems: Option<seq<Item>>,
    lineItemsTotal: Option<real>,
    savings: Option<seq<Item>>,
    savingsTotal: Option<real>,
    total: Option<real>)

  const FRESH: Ledger := Ledger(None, None, None, None, None)

  function OrEmpty(items: Option<seq<Item>>): seq<Item> {
    if items.Some? then items.value else []
  }

  /** Recomputes the totals; without line items this fails after it has reset their total. */
  function Recompute(l: Ledger): (Ledger, Result<bool, Error>) {
    if l.lineItems.None? then (l.(lineItemsTotal := Some(0.0)), Err(LineItemsUnset))
    else
      var lines := Sum(l.lineItems.value);
      if l.savings.None? then (l.(lineItemsTotal := Some(lines), total := Some(lines)), Ok(true))
      else
        var savings := Sum(l.savings.value);
        (l.(lineItemsTotal := Some(lines), savingsTotal := Some(savings), total := Some(lines - savings)), Ok(true))
  }

  datatype Operation =
    | AddLineItem(update: bool, params: Params)
    | RemoveLineItem(key: Key)
    | AddSavings(update: bool, params: Params)
    | RemoveSavings(key: Key)

  /** The ledger after an operation, and what the operation returns or raises. */
  function Apply(l: Ledger, op: Operation): (Ledger, Result<bool, Error>) {
    match op
    case AddLineItem(update, params) =>
      var item := BuildItem(params);
      if item.Err? then (l, Err(item.error))
      else Recompute(l.(lineItems := Some(Put(OrEmpty(l.lineItems), update, item.value))))
    case RemoveLineItem(k) =>
      var items := OrEmpty(l.lineItems);
      if Find(items, k) == |items| then (l, Ok(false))
      else Recompute(l.(lineItems := Some(Remove(items, k))))
    case AddSavings(update, params) =>
      var item := BuildItem(params);
      if item.Err? then (l, Err(item.error))
      else Recompute(l.(savings := Some(Put(OrEmpty(l.savings), update, item.value))))
    case RemoveSavings(k) =>
      var items := OrEmpty(l.savings);
      if Find(items, k) == |items| then (l, Ok(false))
      else Recompute(l.(savings := Some(Remove(items, k))))
  }

  function Run(l: Ledger, ops: seq<Operation>): Ledger
    decreases |ops|
  {
    if ops == [] then l else Run(Apply(l, ops[0]).0, ops[1..])
  }

  // ----- The lists refine a map -----

  ghost predicate DistinctKeys(items: seq<Item>) {
    forall i, j | 0 <= i < j < |items| :: items[i].key != items[j].key
  }

  /** The map a list stands for; of several items with one key, the first counts. */
  ghost function Table(items: seq<Item>): map<Key, Item> {
    if items == [] then map[] else Table(items[1..])[items[0].key := items[0]]
  }

  lemma {:induction false} InTable(items: seq<Item>, k: Key)
    ensures k in Table(items) <==> Find(items, k) < |items|
    ensures k in Table(items) ==> Table(items)[k] == items[Find(items, k)]
  {
    if items != [] {
      InTable(items[1..], k);
    }
  }

  lemma FindIs(items: seq<Item>, k: Key, p: nat)
    requires p <= |items| && (p < |items| ==> items[p].key == k)
    requires forall j | 0 <= j < p :: items[j].key != k
    ensures Find(items, k) == p
  {
  }

  /** What an add stores under its key, depending on what the table holds. */
  ghost function Stored(table: map<Key, Item>, update: bool, item: Item): Item {
    if item.key in table then Merged(table[item.key], update, item) else item
  }

  lemma PutKeepsDistinctKeys(items: seq<Item>, update: bool, item: Item)
    requires DistinctKeys(items)
    ensures DistinctKeys(Put(items, update, item))
  {
  }

  lemma RemoveKeepsDistinctKeys(items: seq<Item>, k: Key)
    requires DistinctKeys(items)
    ensures DistinctKeys(Remove(items, k))
  {
  }

  lemma FindAfterPut(items: seq<Item>, update: bool, item: Item, k: Key)
    ensures var after, i := Put(items, update, item), Find(items, k);
      Find(after, k) == if i < |items| || k == item.key then i else |after|
  {
    var after, i := Put(items, update, item), Find(items, k);
    assert forall j | 0 <= j < |items| :: after[j].key == items[j].key;
    FindIs(after, k, if i < |items| || k == item.key then i else |after|);
  }

  /** An add writes exactly one key of the table, keeping the stored unit price when it updates. */
  lemma PutRefinesTable(items: seq<Item>, update: bool, item: Item)
    requires DistinctKeys(items)
    ensures Table(Put(items, update, item)) == Table(items)[item.key := Stored(Table(items), update, item)]
  {
    var after, table := Put(items, update, item), Table(items);
    var table' := table[item.key := Stored(table, update, item)];
    InTable(items, item.key);
    forall k ensures k in Table(after) <==> k in table'
             ensures k in table' ==> Table(after)[k] == table'[k]
    {
      InTable(items, k);
      InTable(after, k);
      FindAfterPut(items, update, item, k);
    }
  }

  lemma FindAfterRemove(items: seq<Item>, k: Key, j: Key)
    requires DistinctKeys(items)
    ensures var after, i, p := Remove(items, k), Find(items, k), Find(items, j);
      Find(after, j) == if j == k || p == |items| then |after| else if i < p then p - 1 else p
  {
    var after, i, p := Remove(items, k), Find(items, k), Find(items, j);
    assert forall n | 0 <= n < |after| :: after[n] == items[if n < i then n else n + 1];
    FindIs(after, j, if j == k || p == |items| then |after| else if i < p then p - 1 else p);
  }

  /** A removal deletes exactly one key of the table. */
  lemma RemoveRefinesTable(items: seq<Item>, k: Key)
    requires DistinctKeys(items)
    ensures Table(Remove(items, k)) == Table(items) - {k}
  {
    var after, table' := Remove(items, k), Table(items) - {k};
    forall j ensures j in Table(after) <==> j in table'
             ensures j in table' ==> Table(after)[j] == table'[j]
    {
      InTable(items, j);
      InTable(after, j);
      FindAfterRemove(items, k, j);
    }
  }

  // ----- Order of adds -----

  lemma {:induction false} SumOfUpdate(items: seq<Item>, i: nat, item: Item)
    requires i < |items|
    ensures Sum(items[i := item]) == Sum(items) - items[i].totalPrice + item.totalPrice
  {
    var n := |items| - 1;
    if i < n {
      SumOfUpdate(items[..n], i, item);
      assert items[i := item][..n] == items[..n][i := item];
    } else {
      assert items[i := item][..n] == items[..n];
    }
  }

  /** What a list contains when its order is forgotten. */
  datatype Content = Content(table: map<Key, Item>, items: multiset<Item>, sum: real)

  ghost function ContentOf(items: seq<Item>): Content {
    Content(Table(items), multiset(items), Sum(items))
  }

  /** The item an add takes out of the list, if any. */
  ghost function Displaced(table: map<Key, Item>, k: Key): multiset<Item> {
    if k in table then multiset{table[k]} else multiset{}
  }

  ghost function DisplacedTotal(table: map<Key, Item>, k: Key): real {
    if k in table then table[k].totalPrice else 0.0
  }

  /** An add puts one item in and takes at most one out. */
  ghost predicate Adds(c: Content, update: bool, item: Item, c': Content) {
    var stored := Stored(c.table, update, item);
    && c'.table == c.table[item.key := stored]
    && c'.items + Displaced(c.table, item.key) == c.items + multiset{stored}
    && c'.sum + DisplacedTotal(c.table, item.key) == c.sum + stored.totalPrice
  }

  lemma PutAdds(items: seq<Item>, update: bool, item: Item)
    requires DistinctKeys(items)
    ensures Adds(ContentOf(items), update, item, ContentOf(Put(items, update, item)))
  {
    PutRefinesTable(items, update, item);
    var i := Find(items, item.key);
    InTable(items, item.key);
    if i < |items| {
      SumOfUpdate(items, i, Merged(items[i], update, item));
    } else {
      assert (items + [item])[..|items|] == items;
    }
  }

  /** After two adds under different keys, what they took out and put in. */
  lemma TwoAdds(c: Content, u: bool, a: Item, v: bool, b: Item, ca: Content, cab: Content)
    requires a.key != b.key && Adds(c, u, a, ca) && Adds(ca, v, b, cab)
    ensures var x, y := Stored(c.table, u, a), Stored(c.table, v, b);
      && cab.table == c.table[a.key := x][b.key := y]
      && cab.items + Displaced(c.table, a.key) + Displaced(c.table, b.key) == c.items + multiset{x} + multiset{y}
      && cab.sum + DisplacedTotal(c.table, a.key) + DisplacedTotal(c.table, b.key)
         == c.sum + x.totalPrice + y.totalPrice
  {
    var x, y := Stored(c.table, u, a), Stored(c.table, v, b);
    var da, db := Displaced(c.table, a.key), Displaced(c.table, b.key);
    assert Stored(ca.table, v, b) == y && Displaced(ca.table, b.key) == db;
    assert cab.items + da + db == (cab.items + db) + da == ca.items + multiset{y} + da == ca.items + da + multiset{y};
  }

  lemma SameItems(m: multiset<Item>, n: multiset<Item>, base: multiset<Item>,
                  x: multiset<Item>, y: multiset<Item>, a: multiset<Item>, b: multiset<Item>)
    requires m + a + b == base + x + y && n + b + a == base + y + x
    ensures m == n
  {
    forall item ensures m[item] == n[item] {
      assert (m + a + b)[item] == (base + x + y)[item] && (n + b + a)[item] == (base + y + x)[item];
    }
  }

  lemma AddsOfContentsCommute(c: Content, u: bool, a: Item, v: bool, b: Item,
                              ca: Content, cab: Content, cb: Content, cba: Content)
    requires a.key != b.key
    requires Adds(c, u, a, ca) && Adds(ca, v, b, cab) && Adds(c, v, b, cb) && Adds(cb, u, a, cba)
    ensures cab == cba
  {
    var x, y := Stored(c.table, u, a), Stored(c.table, v, b);
    var da, db := Displaced(c.table, a.key), Displaced(c.table, b.key);
    TwoAdds(c, u, a, v, b, ca, cab);
    TwoAdds(c, v, b, u, a, cb, cba);
    assert cab.table == cba.table;
    SameItems(cab.items, cba.items, c.items, multiset{x}, multiset{y}, da, db);
  }

  /** Adds under different keys commute: same table, same items up to order, same sum. */
  lemma AddsCommute(items: seq<Item>, u: bool, a: Item, v: bool, b: Item)
    requires DistinctKeys(items) && a.key != b.key
    ensures ContentOf(Put(Put(items, u, a), v, b)) == ContentOf(Put(Put(items, v, b), u, a))
  {
    var ia, ib := Put(items, u, a), Put(items, v, b);
    PutAdds(items, u, a);
    PutAdds(items, v, b);
    PutKeepsDistinctKeys(items, u, a);
    PutKeepsDistinctKeys(items, v, b);
    PutAdds(ia, v, b);
    PutAdds(ib, u, a);
    AddsOfContentsCommute(ContentOf(items), u, a, v, b, ContentOf(ia), ContentOf(Put(ia, v, b)),
                          ContentOf(ib), ContentOf(Put(ib, u, a)));
  }

  // ----- Totals over every run -----

  /** The totals agree with the lists, and a missing list has no total of its own. */
  ghost predicate Balanced(l: Ledger) {
    && l.lineItems.Some?
    && l.lineItemsTotal == Some(Sum(l.lineItems.value))
    && l.savingsTotal == (if l.savings.Some? then Some(Sum(l.savings.value)) else None)
    && l.total == Some(Sum(l.lineItems.value) - Sum(OrEmpty(l.savings)))
  }

  ghost predicate Consistent(l: Ledger) {
    && DistinctKeys(OrEmpty(l.lineItems)) && DistinctKeys(OrEmpty(l.savings))
    && (l.lineItems.Some? ==> Balanced(l))
    && (l.lineItems.None? ==> l.total == None && l.savingsTotal == None)
  }

  lemma RecomputeBalances(l: Ledger)
    requires DistinctKeys(OrEmpty(l.lineItems)) && DistinctKeys(OrEmpty(l.savings))
    requires l.savings.None? ==> l.savingsTotal == None
    requires l.lineItems.None? ==> l.total == None && l.savingsTotal == None
    ensures Consistent(Recompute(l).0)
    ensures Recompute(l).1 == if l.lineItems.Some? then Ok(true) else Err(LineItemsUnset)
  {
  }

  /** The operation has savings to add or to remove. */
  predicate ChangesSavings(l: Ledger, op: Operation) {
    || (op.AddSavings? && BuildItem(op.params).Ok?)
    || (op.RemoveSavings? && Find(OrEmpty(l.savings), op.key) < |OrEmpty(l.savings)|)
  }

  lemma LineItemsKeepConsistent(l: Ledger, op: Operation)
    requires Consistent(l) && (op.AddLineItem? || op.RemoveLineItem?)
    ensures Consistent(Apply(l, op).0)
    ensures l.lineItems.Some? ==> Apply(l, op).0.lineItems.Some?
    ensures Apply(l, op).1 != Err(LineItemsUnset)
  {
    var lines := OrEmpty(l.lineItems);
    if op.AddLineItem? {
      if BuildItem(op.params).Ok? {
        var after := Put(lines, op.update, BuildItem(op.params).value);
        PutKeepsDistinctKeys(lines, op.update, BuildItem(op.params).value);
        RecomputeBalances(l.(lineItems := Some(after)));
      }
    } else if Find(lines, op.key) < |lines| {
      RemoveKeepsDistinctKeys(lines, op.key);
      RecomputeBalances(l.(lineItems := Some(Remove(lines, op.key))));
    }
  }

  lemma SavingsKeepConsistent(l: Ledger, op: Operation)
    requires Consistent(l) && (op.AddSavings? || op.RemoveSavings?)
    ensures Consistent(Apply(l, op).0) && Apply(l, op).0.lineItems == l.lineItems
    ensures Apply(l, op).1 == Err(LineItemsUnset) <==> l.lineItems.None? && ChangesSavings(l, op)
  {
    var savings := OrEmpty(l.savings);
    if op.AddSavings? {
      if BuildItem(op.params).Ok? {
        var after := Put(savings, op.update, BuildItem(op.params).value);
        PutKeepsDistinctKeys(savings, op.update, BuildItem(op.params).value);
        RecomputeBalances(l.(savings := Some(after)));
      }
    } else if Find(savings, op.key) < |savings| {
      RemoveKeepsDistinctKeys(savings, op.key);
      RecomputeBalances(l.(savings := Some(Remove(savings, op.key))));
    }
  }

  /** The totals fail exactly when savings change before there are line items. */
  lemma ApplyKeepsConsistent(l: Ledger, op: Operation)
    requires Consistent(l)
    ensures Consistent(Apply(l, op).0)
    ensures l.lineItems.Some? ==> Apply(l, op).0.lineItems.Some?
    ensures Apply(l, op).1 == Err(LineItemsUnset) <==> l.lineItems.None? && ChangesSavings(l, op)
  {
    if op.AddLineItem? || op.RemoveLineItem? {
      LineItemsKeepConsistent(l, op);
    } else {
      SavingsKeepConsistent(l, op);
    }
  }

  lemma {:induction false} RunKeepsConsistent(l: Ledger, ops: seq<Operation>)
    requires Consistent(l)
    ensures Consistent(Run(l, ops))
    decreases |ops|
  {
    if ops != [] {
      ApplyKeepsConsistent(l, ops[0]);
      RunKeepsConsistent(Apply(l, ops[0]).0, ops[1..]);
    }
  }

  /**
   After any operations whatsoever, failing ones included, the keys of each list are pairwise
   distinct, and once there are line items all totals are right.
   */
  lemma TotalsAreRight(ops: seq<Operation>)
    ensures var l := Run(FRESH, ops);
      && DistinctKeys(OrEmpty(l.lineItems)) && DistinctKeys(OrEmpty(l.savings))
      && (l.lineItems.Some? ==> Balanced(l))
  {
    RunKeepsConsistent(FRESH, ops);
  }

  predicate AddsLine(op: Operation) {
    op.AddLineItem? && BuildItem(op.params).Ok?
  }

  lemma {:induction false} RunHasTotalExactly(l: Ledger, ops: seq<Operation>)
    requires Consistent(l)
    ensures Run(l, ops).total.Some? <==> l.total.Some? || exists op :: op in ops && AddsLine(op)
    decreases |ops|
  {
    if ops != [] {
      var op, rest := ops[0], ops[1..];
      ApplyKeepsConsistent(l, op);
      RunHasTotalExactly(Apply(l, op).0, rest);
      assert forall o :: o in ops <==> o == op || o in rest;
      assert Apply(l, op).0.total.Some? <==> l.total.Some? || AddsLine(op);
    }
  }

  /** After any operations there is a total exactly when some add of a line item succeeded, then or earlier. */
  lemma TotalExactly(ops: seq<Operation>)
    ensures Run(FRESH, ops).total.Some? <==> exists op :: op in ops && AddsLine(op)
  {
    RunHasTotalExactly(FRESH, ops);
  }

  /** Savings without any line item are kept, but leave the ledger without totals. */
  lemma SavingsFirstHaveNoTotal(update: bool, params: Params)
    requires BuildItem(params).Ok?
    ensures var (l, r) := Apply(FRESH, AddSavings(update, params));
      && r == Err(LineItemsUnset)
      && l.savings == Some([BuildItem(params).value]) && l.savingsTotal == None && l.total == None
  {
    assert Put([], update, BuildItem(params).value) == [BuildItem(params).value];
  }

  // ----- Runs refine runs on two maps -----

  datatype Tables = Tables(lineItems: map<Key, Item>, savings: map<Key, Item>)

  ghost function TablesOf(l: Ledger): Tables {
    Tables(Table(OrEmpty(l.lineItems)), Table(OrEmpty(l.savings)))
  }

  ghost function Write(table: map<Key, Item>, update: bool, params: Params): map<Key, Item> {
    match BuildItem(params)
    case Ok(item) => table[item.key := Stored(table, update, item)]
    case Err(_) => table
  }

  /** The operation on the maps, whether or not computing the totals fails. */
  ghost function ApplyToTables(t: Tables, op: Operation): Tables {
    match op
    case AddLineItem(update, params) => t.(lineItems := Write(t.lineItems, update, params))
    case RemoveLineItem(k) => t.(lineItems := t.lineItems - {k})
    case AddSavings(update, params) => t.(savings := Write(t.savings, update, params))
    case RemoveSavings(k) => t.(savings := t.savings - {k})
  }

  ghost function RunOnTables(t: Tables, ops: seq<Operation>): Tables
    decreases |ops|
  {
    if ops == [] then t else RunOnTables(ApplyToTables(t, ops[0]), ops[1..])
  }

  /**
   Every operation does to its map what it says, and a removal answers false exactly when there is
   nothing to remove.
   */
  lemma ApplyRefinesTables(l: Ledger, op: Operation)
    requires Consistent(l)
    ensures TablesOf(Apply(l, op).0) == ApplyToTables(TablesOf(l), op)
    ensures Apply(l, op).1 == Ok(false) <==>
            || (op.RemoveLineItem? && op.key !in TablesOf(l).lineItems)
            || (op.RemoveSavings? && op.key !in TablesOf(l).savings)
  {
    var lines, savings := OrEmpty(l.lineItems), OrEmpty(l.savings);
    match op {
      case AddLineItem(update, params) =>
        if BuildItem(params).Ok? {
          PutRefinesTable(lines, update, BuildItem(params).value);
        }
      case RemoveLineItem(k) =>
        RemoveRefinesTable(lines, k);
        InTable(lines, k);
      case AddSavings(update, params) =>
        if BuildItem(params).Ok? {
          PutRefinesTable(savings, update, BuildItem(params).value);
        }
      case RemoveSavings(k) =>
        RemoveRefinesTable(savings, k);
        InTable(savings, k);
    }
  }

  /** After any operations, the two lists hold what the same operations leave in two maps. */
  lemma {:induction false} RunRefinesTables(l: Ledger, ops: seq<Operation>)
    requires Consistent(l)
    ensures TablesOf(Run(l, ops)) == RunOnTables(TablesOf(l), ops)
    decreases |ops|
  {
    if ops != [] {
      ApplyRefinesTables(l, ops[0]);
      ApplyKeepsConsistent(l, ops[0]);
      RunRefinesTables(Apply(l, ops[0]).0, ops[1..]);
    }
  }

  // ----- What an add stores, by its parameters -----

  const REQUIRED: seq<string> := ["title", "service", "product", "quantity", "unit_price"]

  /** Which of the required parameters are given. */
  function Given(p: Params): (given: seq<bool>)
    ensures |given| == |REQUIRED|
  {
    [p.title.Some?, p.service.Some?, p.product.Some?, p.quantity.Some?, p.unitPrice.Some?]
  }

  predicate AllGiven(p: Params) {
    p.title.Some? && p.service.Some? && p.product.Some? && p.quantity.Some? && p.unitPrice.Some?
  }

  function KeyOf(p: Params): Key
    requires AllGiven(p)
  {
    Key(p.service.value, p.product.value)
  }

  /** The item under the key of the parameters after an add: an update changes only quantity and total. */
  function Entry(table: map<Key, Item>, update: bool, p: Params): Item
    requires AllGiven(p)
  {
    var quantity := p.quantity.value;
    if update && KeyOf(p) in table then
      var existing := table[KeyOf(p)];
      existing.(quantity := quantity, totalPrice := quantity * existing.unitPrice)
    else
      var total := if p.totalPrice.Some? then p.totalPrice.value else quantity * p.unitPrice.value;
      Item(p.title.value, KeyOf(p), quantity, p.unit, p.unitPrice.value, total)
  }

  lemma AcceptedExactly(p: Params)
    ensures BuildItem(p).Ok? <==> AllGiven(p)
    ensures !AllGiven(p) ==>
      exists k :: (
        && 0 <= k < |REQUIRED| && !Given(p)[k] && (forall j | 0 <= j < k :: Given(p)[j])
        && BuildItem(p) == Err(MissingParam(REQUIRED[k])))
  {
    var given := Given(p);
    assert given[0] == p.title.Some? && given[1] == p.service.Some? && given[2] == p.product.Some?;
    assert given[3] == p.quantity.Some? && given[4] == p.unitPrice.Some?;
  }

  /** On the map, an add writes the entry of its parameters, if it is accepted. */
  lemma WriteExactly(table: map<Key, Item>, update: bool, p: Params)
    ensures Write(table, update, p) == if AllGiven(p) then table[KeyOf(p) := Entry(table, update, p)] else table
  {
    AcceptedExactly(p);
    if AllGiven(p) {
      var item := BuildItem(p).value;
      assert item.key == KeyOf(p);
      assert Stored(table, update, item) == Entry(table, update, p);
    }
  }

  /**
   An add is accepted exactly when the required parameters are given, and otherwise changes nothing.
   An accepted one writes its entry under its service and product.
   */
  lemma AddLineItemExactly(l: Ledger, update: bool, p: Params)
    requires Consistent(l)
    ensures var (after, r) := Apply(l, AddLineItem(update, p));
      if AllGiven(p) then
        && r == Ok(true) && after.savings == l.savings
        && TablesOf(after).lineItems == TablesOf(l).lineItems[KeyOf(p) := Entry(TablesOf(l).lineItems, update, p)]
      else after == l && r.Err? && r.error.MissingParam?
  {
    AcceptedExactly(p);
    ApplyRefinesTables(l, AddLineItem(update, p));
    WriteExactly(TablesOf(l).lineItems, update, p);
  }

  /** The same for savings, except that the totals fail without line items. */
  lemma AddSavingsExactly(l: Ledger, update: bool, p: Params)
    requires Consistent(l)
    ensures var (after, r) := Apply(l, AddSavings(update, p));
      if AllGiven(p) then
        && r == (if l.lineItems.Some? then Ok(true) else Err(LineItemsUnset)) && after.lineItems == l.lineItems
        && TablesOf(after).savings == TablesOf(l).savings[KeyOf(p) := Entry(TablesOf(l).savings, update, p)]
      else after == l && r.Err? && r.error.MissingParam?
  {
    AcceptedExactly(p);
    ApplyRefinesTables(l, AddSavings(update, p));
    WriteExactly(TablesOf(l).savings, update, p);
  }

  /** An accepted add followed by the removal of its service and product leaves the key absent. */
  lemma RemoveUndoesAddLineItem(l: Ledger, update: bool, p: Params)
    requires Consistent(l) && AllGiven(p)
    ensures var (after, r) := Apply(Apply(l, AddLineItem(update, p)).0, RemoveLineItem(KeyOf(p)));
      r == Ok(true) && TablesOf(after).lineItems == TablesOf(l).lineItems - {KeyOf(p)}
  {
    var added := Apply(l, AddLineItem(update, p)).0;
    AddLineItemExactly(l, update, p);
    ApplyKeepsConsistent(l, AddLineItem(update, p));
    RemovalAfterAdd(added, RemoveLineItem(KeyOf(p)));
    RestoredBy(TablesOf(l).lineItems, KeyOf(p), TablesOf(added).lineItems);
  }

  lemma RemoveUndoesAddSavings(l: Ledger, update: bool, p: Params)
    requires Consistent(l) && AllGiven(p)
    ensures var (after, r) := Apply(Apply(l, AddSavings(update, p)).0, RemoveSavings(KeyOf(p)));
      && r == (if l.lineItems.Some? then Ok(true) else Err(LineItemsUnset))
      && TablesOf(after).savings == TablesOf(l).savings - {KeyOf(p)}
  {
    var added := Apply(l, AddSavings(update, p)).0;
    AddSavingsExactly(l, update, p);
    ApplyKeepsConsistent(l, AddSavings(update, p));
    RemovalAfterAdd(added, RemoveSavings(KeyOf(p)));
    RestoredBy(TablesOf(l).savings, KeyOf(p), TablesOf(added).savings);
  }

  lemma RestoredBy(table: map<Key, Item>, k: Key, added: map<Key, Item>)
    requires k in added && added == table[k := added[k]]
    ensures added - {k} == table - {k}
  {
  }

  lemma RemovalAfterAdd(l: Ledger, op: Operation)
    requires Consistent(l)
    requires || (op.RemoveLineItem? && op.key in TablesOf(l).lineItems)
             || (op.RemoveSavings? && op.key in TablesOf(l).savings)
    ensures TablesOf(Apply(l, op).0) == ApplyToTables(TablesOf(l), op)
    ensures Apply(l, op).1 == if l.lineItems.Some? then Ok(true) else Err(LineItemsUnset)
  {
    ApplyRefinesTables(l, op);
    ApplyKeepsConsistent(l, op);
  }

  // ----- The order of the lists -----

  function Keys(items: seq<Item>): (keys: seq<Key>)
    ensures |keys| == |items|
  {
    seq(|items|, i requires 0 <= i < |items| => items[i].key)
  }

  lemma KeyListed(items: seq<Item>, k: Key)
    ensures k in Keys(items) <==> Find(items, k) < |items|
  {
    if Find(items, k) < |items| {
      assert Keys(items)[Find(items, k)] == k;
    }
  }

  /** An add keeps every key in its place and puts a new one at the end. */
  lemma PutKeepsOrder(items: seq<Item>, update: bool, item: Item)
    ensures Keys(Put(items, update, item)) == Keys(items) + if item.key in Keys(items) then [] else [item.key]
  {
    KeyListed(items, item.key);
    var after, i := Put(items, update, item), Find(items, item.key);
    assert forall j | 0 <= j < |items| :: after[j].key == items[j].key;
    if i < |items| {
      assert Keys(after) == Keys(items);
      assert Keys(items) + [] == Keys(items);
    }
  }

  /** A removal closes the gap. */
  lemma RemoveKeepsOrder(items: seq<Item>, k: Key)
    ensures var keys, i := Keys(items), Find(items, k);
      Keys(Remove(items, k)) == if k in keys then keys[..i] + keys[i + 1..] else keys
  {
    KeyListed(items, k);
    var after, keys, i := Remove(items, k), Keys(items), Find(items, k);
    if i < |items| {
      var kept := keys[..i] + keys[i + 1..];
      assert |after| == |kept|;
      forall j | 0 <= j < |after| ensures after[j].key == kept[j] {
        assert after[j] == items[if j < i then j else j + 1];
      }
      assert Keys(after) == kept;
    }
  }

  // ----- Prices -----

  predicate Priced(item: Item) {
    item.totalPrice == item.quantity * item.unitPrice
  }

  ghost predicate AllPriced(l: Ledger) {
    && (forall item | item in OrEmpty(l.lineItems) :: Priced(item))
    && (forall item | item in OrEmpty(l.savings) :: Priced(item))
  }

  predicate PassesTotal(op: Operation) {
    (op.AddLineItem? || op.AddSavings?) && op.params.totalPrice.Some?
  }

  lemma PutKeepsPriced(items: seq<Item>, update: bool, item: Item)
    requires (forall x | x in items :: Priced(x)) && Priced(item)
    ensures forall x | x in Put(items, update, item) :: Priced(x)
  {
  }

  lemma RemoveKeepsItems(items: seq<Item>, k: Key)
    ensures forall x | x in Remove(items, k) :: x in items
  {
  }

  lemma ApplyKeepsPriced(l: Ledger, op: Operation)
    requires AllPriced(l) && !PassesTotal(op)
    ensures AllPriced(Apply(l, op).0)
  {
    match op {
      case AddLineItem(update, params) =>
        if BuildItem(params).Ok? {
          PutKeepsPriced(OrEmpty(l.lineItems), update, BuildItem(params).value);
        }
      case RemoveLineItem(k) => RemoveKeepsItems(OrEmpty(l.lineItems), k);
      case AddSavings(update, params) =>
        if BuildItem(params).Ok? {
          PutKeepsPriced(OrEmpty(l.savings), update, BuildItem(params).value);
        }
      case RemoveSavings(k) => RemoveKeepsItems(OrEmpty(l.savings), k);
    }
  }

  /** If no add passes a total price, every item always costs its quantity times its unit price. */
  lemma {:induction false} RunKeepsPriced(l: Ledger, ops: seq<Operation>)
    requires AllPriced(l) && forall op | op in ops :: !PassesTotal(op)
    ensures AllPriced(Run(l, ops))
    decreases |ops|
  {
    if ops != [] {
      assert ops[0] in ops;
      ApplyKeepsPriced(l, ops[0]);
      RunKeepsPriced(Apply(l, ops[0]).0, ops[1..]);
    }
  }
}
